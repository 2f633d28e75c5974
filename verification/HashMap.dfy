/** The chained hash map the VFS keeps its filesystems in. Keys are compared as pointers and hashed
    as text. */
module HashMap {
  import opened Arith

  const BASE: nat := 65599

  // ----- hash -----

  /** The text as a number in base 65599. */
  function Poly(text: string): int {
    if text == [] then 0 else Poly(text[..|text| - 1]) * BASE + SignedChar(text[|text| - 1])
  }

  function Bucket(text: string, size: nat): (b: nat)
    requires size > 0
    ensures b < size
  {
    Poly(text) % W32 % size
  }

  lemma PolyInNumbers(text: string, c: char)
    ensures Poly("") == 0
    ensures Poly(text + [c]) ==
            Poly(text) * 65599 + if c as int % 256 < 128 then c as int % 256 else c as int % 256 - 256
  {
    assert (text + [c])[..|text|] == text;
  }

  /** hash: shifts and a subtraction in 32 bits. */
  method Hash(text: string, size: nat) returns (b: nat)
    requires size > 0
    ensures b == Bucket(text, size) == Poly(text) % 0x1_0000_0000 % size
  {
    var hash: nat := 0;
    for i := 0 to |text|
      invariant hash == Poly(text[..i]) % W32
    {
      assert text[..i + 1][..i] == text[..i];
      WrapStep(Poly(text[..i]), SignedChar(text[i]));
      hash := (SignedChar(text[i]) + hash * 0x40 % W32 + hash * 0x1_0000 % W32 - hash) % W32;
    }
    assert text[..|text|] == text;
    b := hash % size;
  }

  lemma WrapStep(p: int, c: int)
    ensures var h := p % W32; (c + h * 0x40 % W32 + h * 0x1_0000 % W32 - h) % W32 == (p * BASE + c) % W32
  {
    var h := p % W32;
    var x := c + h * 0x40 % W32 + h * 0x1_0000 % W32 - h;
    var q := p / W32 * BASE + h * 0x40 / W32 + h * 0x1_0000 / W32;
    assert p * BASE + c == x + q * W32;
    ModDrops(x, q, W32);
  }

  // ----- chains -----

  class Entry<V> {
    var key: nat
    var value: V
    var next: Entry?<V>

    constructor (key: nat, value: V)
      ensures this.key == key && this.value == value && next == null
    {
      this.key, this.value, next := key, value, null;
    }
  }

  /** `chain` is what following `next` from `first` visits, and it ends. */
  ghost predicate Linked<V>(first: Entry?<V>, chain: seq<Entry<V>>)
    reads chain
  {
    && first == (if chain == [] then null else chain[0])
    && (forall j {:trigger chain[j]} :: 0 <= j < |chain| ==>
          chain[j].next == if j + 1 < |chain| then chain[j + 1] else null)
    && forall j, k :: 0 <= j < k < |chain| ==> chain[j] != chain[k]
  }

  /** A chain's keys belong to its bucket. */
  ghost predicate Homed<V>(chain: seq<Entry<V>>, b: nat, size: nat, text: nat -> string)
    requires size > 0
    reads chain`key
  {
    forall j :: 0 <= j < |chain| ==> Bucket(text(chain[j].key), size) == b
  }

  ghost predicate Apart<V>(chains: seq<seq<Entry<V>>>) {
    forall b, c, e :: 0 <= b < |chains| && 0 <= c < |chains| && e in chains[b] && e in chains[c] ==> b == c
  }

  lemma ApartAppends<V>(chains: seq<seq<Entry<V>>>, b: nat, e: Entry<V>)
    requires Apart(chains) && b < |chains| && forall c :: 0 <= c < |chains| ==> e !in chains[c]
    ensures Apart(chains[b := chains[b] + [e]])
  {
  }

  datatype Pair<V> = Pair(key: nat, value: V)

  ghost function Contents<V>(chain: seq<Entry<V>>): (s: seq<Pair<V>>)
    reads chain`key, chain`value
    ensures |s| == |chain| && forall j :: 0 <= j < |chain| ==> s[j] == Pair(chain[j].key, chain[j].value)
  {
    if chain == [] then [] else
      var last := |chain| - 1;
      Contents(chain[..last]) + [Pair(chain[last].key, chain[last].value)]
  }

  lemma ContentsGrow<V>(chain: seq<Entry<V>>, e: Entry<V>)
    ensures Contents(chain + [e]) == Contents(chain) + [Pair(e.key, e.value)]
  {
    assert (chain + [e])[..|chain|] == chain;
  }

  ghost function Find<V>(pairs: seq<Pair<V>>, key: nat): (v: Option<V>)
    ensures v == None <==> forall j :: 0 <= j < |pairs| ==> pairs[j].key != key
  {
    if pairs == [] then None
    else if pairs[0].key == key then Some(pairs[0].value)
    else Find(pairs[1..], key)
  }

  lemma {:induction false} FindAppends<V>(pairs: seq<Pair<V>>, p: Pair<V>, key: nat)
    ensures Find(pairs + [p], key) ==
            if Find(pairs, key).Some? then Find(pairs, key) else if p.key == key then Some(p.value) else None
  {
    if pairs != [] {
      assert (pairs + [p])[1..] == pairs[1..] + [p];
      FindAppends(pairs[1..], p, key);
    }
  }

  // ----- the walk of hashmap_insert -----

  /** Its loop stays at an entry with the key, rewriting the value for ever. */
  function Walk<V>(pairs: seq<Pair<V>>, key: nat, steps: nat): (j: nat)
    ensures j <= |pairs|
  {
    if steps == 0 then 0
    else
      var j := Walk(pairs, key, steps - 1);
      if j < |pairs| && pairs[j].key != key then j + 1 else j
  }

  /** The walk reaches the end of the chain exactly when the key is not there yet. */
  lemma InsertEndsForNewKeys<V>(pairs: seq<Pair<V>>, key: nat)
    ensures (exists steps: nat :: Walk(pairs, key, steps) == |pairs|) <==> Find(pairs, key) == None
  {
    if Find(pairs, key) == None {
      WalkAdvances(pairs, key, |pairs|);
    } else {
      var j :| 0 <= j < |pairs| && pairs[j].key == key;
      forall steps: nat
        ensures Walk(pairs, key, steps) <= j
      {
        WalkStays(pairs, key, j, steps);
      }
    }
  }

  lemma {:induction false} WalkAdvances<V>(pairs: seq<Pair<V>>, key: nat, steps: nat)
    requires Find(pairs, key) == None && steps <= |pairs|
    ensures Walk(pairs, key, steps) == steps
  {
    if steps > 0 {
      WalkAdvances(pairs, key, steps - 1);
    }
  }

  lemma {:induction false} WalkStays<V>(pairs: seq<Pair<V>>, key: nat, j: nat, steps: nat)
    requires j < |pairs| && pairs[j].key == key
    ensures Walk(pairs, key, steps) <= j
  {
    if steps > 0 {
      WalkStays(pairs, key, j, steps - 1);
    }
  }

  // ----- the map -----

  /** hashmap_get's walk. */
  method Search<V>(first: Entry?<V>, key: nat, ghost chain: seq<Entry<V>>) returns (v: Option<V>)
    requires Linked(first, chain)
    ensures v == Find(Contents(chain), key)
  {
    var e := first;
    ghost var j, pairs := 0, Contents(chain);
    assert pairs[0..] == pairs;
    while e != null
      invariant 0 <= j <= |chain| && e == (if j < |chain| then chain[j] else null)
      invariant Find(pairs, key) == Find(pairs[j..], key)
      decreases |chain| - j
    {
      assert pairs[j] == Pair(e.key, e.value) && pairs[j..][1..] == pairs[j + 1..];
      if e.key == key {
        return Some(e.value);
      }
      e := e.next;
      j := j + 1;
    }
    v := None;
  }

  /** hashmap_insert's walk, for a chain without the key: it ends at the last entry. */
  method Last<V>(first: Entry<V>, key: nat, ghost chain: seq<Entry<V>>) returns (last: Entry<V>)
    requires Linked(first, chain) && Find(Contents(chain), key) == None
    ensures chain != [] && last == chain[|chain| - 1]
  {
    var e: Entry?<V> := first;
    last := first;
    ghost var j := 0;
    while e != null
      invariant 0 <= j <= |chain| && e == (if j < |chain| then chain[j] else null)
      invariant if j == 0 then last == first else last == chain[j - 1]
      decreases |chain| - j
    {
      assert Contents(chain)[j].key == e.key != key;
      last := e;
      e := e.next;
      j := j + 1;
    }
  }

  /** Linking an entry behind a chain without its key. */
  method LinkLast<V>(first: Entry<V>, e: Entry<V>, ghost chain: seq<Entry<V>>)
    requires Linked(first, chain) && Find(Contents(chain), e.key) == None && e !in chain && e.next == null
    modifies chain`next
    ensures Linked(first, chain + [e])
  {
    var last := Last(first, e.key, chain);
    last.next := e;
  }

  class Map<V> {
    const size: nat
    const entries: array<Entry?<V>>
    const text: nat -> string            // what a key points to
    ghost var chains: seq<seq<Entry<V>>>

    ghost function Nodes(): set<Entry<V>>
      reads this
    {
      set b, j | 0 <= b < |chains| && 0 <= j < |chains[b]| :: chains[b][j]
    }

    ghost predicate Valid()
      reads this, entries, Nodes()
    {
      && size > 0 && entries.Length == size == |chains|
      && (forall b :: 0 <= b < size ==> Linked(entries[b], chains[b]))
      && (forall b :: 0 <= b < size ==> Homed(chains[b], b, size, text))
      && Apart(chains)
    }

    ghost function Lookup(key: nat): Option<V>
      requires Valid()
      reads this, entries, Nodes()
    {
      Find(Contents(chains[Bucket(text(key), size)]), key)
    }

    constructor (size: nat, text: nat -> string)
      requires size > 0
      ensures Valid() && this.text == text && fresh(entries) && Nodes() == {}
      ensures forall key :: Lookup(key) == None
    {
      this.size, this.text := size, text;
      entries := new Entry?<V>[size](_ => null);
      chains := seq(size, _ => []);
    }

    /** hashmap_get. */
    method Get(key: nat) returns (v: Option<V>)
      requires Valid()
      ensures v == Lookup(key)
    {
      var b := Hash(text(key), size);
      v := Search(entries[b], key, chains[b]);
    }

    /** hashmap_insert for a key not in the map. With a key that is, the code's walk never ends. */
    method Insert(key: nat, value: V)
      requires Valid() && Lookup(key) == None
      modifies entries, this`chains, Nodes()
      ensures Valid() && forall x :: x in Nodes() ==> x in old(Nodes()) || fresh(x)
      ensures forall k :: Lookup(k) == if k == key then Some(value) else old(Lookup(k))
    {
      hide Bucket, Find, Contents, Linked, Homed, Apart;
      var b := Hash(text(key), size);
      var e := new Entry(key, value);
      Append(b, e);
      assert forall x :: x in Nodes() ==> x in old(Nodes()) || x == e;
      forall k
        ensures Lookup(k) == if k == key then Some(value) else old(Lookup(k))
      {
        var c := Bucket(text(k), size);
        var before, now := old(Contents(chains[c])), Contents(chains[c]);
        assert now == before + if c == b then [Pair(key, value)] else [];
        FindAppends(before, Pair(key, value), k);
        assert before + [] == before;
      }
    }

    method Append(b: nat, e: Entry<V>)
      requires Valid() && b < size && Bucket(text(e.key), size) == b && Find(Contents(chains[b]), e.key) == None
      requires e !in Nodes() && e.next == null
      modifies entries, this`chains, chains[b]
      ensures Valid() && chains == old(chains[b := chains[b] + [e]])
      ensures forall c :: 0 <= c < size ==>
                Contents(chains[c]) == old(Contents(chains[c])) + if c == b then [Pair(e.key, e.value)] else []
    {
      hide Bucket, Find, Contents, Linked;
      ghost var before, chain := chains, chains[b];
      assert e !in chain && forall c :: 0 <= c < size ==> e !in chains[c];
      ApartAppends(chains, b, e);
      assert chain + [e] != [] && Linked(entries[b], chain);
      if entries[b] == null {
        FirstEntry(chain, e);
        entries[b] := e;
      } else {
        LinkLast(entries[b], e, chain);
      }
      assert Linked(entries[b], chain + [e]);
      chains := chains[b := chain + [e]];
      forall c | 0 <= c < size
        ensures Linked(entries[c], chains[c]) && Homed(chains[c], c, size, text)
        ensures Contents(chains[c]) == old(Contents(before[c])) + if c == b then [Pair(e.key, e.value)] else []
      {
        assert Homed(before[c], c, size, text);
        if c == b {
          ContentsGrow(chain, e);
        }
      }
    }

    lemma FirstEntry(chain: seq<Entry<V>>, e: Entry<V>)
      requires Linked(null, chain) && e.next == null
      ensures Linked(e, chain + [e])
    {
    }
  }
}
