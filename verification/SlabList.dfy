/** The page list of a slab as a value: what popping, freeing and growing do to it. */
module SlabList {
  const BATCH: nat := 12  // pages linked by one refill

  /** `list` is what follows the head page; `length` is the slab's own credit counter. */
  datatype State<T> = State(list: seq<T>, length: nat, size: nat, realloc: bool)

  predicate NoDup<T(==)>(s: seq<T>) {
    forall i, j :: 0 <= i < j < |s| ==> s[i] != s[j]
  }

  function IndexOf<T(==)>(s: seq<T>, x: T): (i: nat)
    requires x in s
    ensures i < |s| && s[i] == x && x !in s[..i]
  {
    if s[0] == x then 0 else 1 + IndexOf(s[1..], x)
  }

  /** Linking `q` behind the last page and cutting off what followed `q`: a page that was linked
      already becomes the end of the list. */
  function Push<T(==)>(list: seq<T>, q: T): seq<T> {
    if q in list then list[..IndexOf(list, q) + 1] else list + [q]
  }

  /** The last page of a list is never unlinked. */
  function Unlink<T>(list: seq<T>, i: nat): seq<T>
    requires i < |list|
  {
    if i == |list| - 1 then list else list[..i] + list[i + 1..]
  }

  lemma UnlinkFacts<T>(list: seq<T>, i: nat)
    requires i < |list| && NoDup(list)
    ensures NoDup(Unlink(list, i)) && forall x :: x in Unlink(list, i) ==> x in list
  {
  }

  lemma PushFacts<T>(list: seq<T>, q: T)
    requires NoDup(list)
    ensures NoDup(Push(list, q)) && forall x :: x in Push(list, q) ==> x in list || x == q
  {
  }

  predicate Refills<T>(s: State<T>) {
    s.realloc || s.length == 0
  }

  /** slab_pop_page, given the batch a refill would create. */
  function PopOf<T>(s: State<T>, batch: seq<T>): (State<T>, T)
    requires if Refills(s) then batch != [] else s.list != []
  {
    if Refills(s) then (State(Unlink(batch, 0), |batch| - 1, s.size, false), batch[0])
    else (s.(list := Unlink(s.list, 0), length := s.length - 1), s.list[0])
  }

  /** A freed page is linked last, whether it was linked or not; what stood before it keeps its order. */
  lemma FreedIsLast<T>(s: State<T>, q: T)
    ensures var t := FreeOf(s, q);
            && t.list != [] && t.list[|t.list| - 1] == q && t == s.(list := t.list)
            && t.list[..|t.list| - 1] == (if q in s.list then s.list[..IndexOf(s.list, q)] else s.list)
  {
    var t := FreeOf(s, q);
    assert q in s.list ==> s.list[..IndexOf(s.list, q) + 1][..|t.list| - 1] == s.list[..IndexOf(s.list, q)];
  }

  function FreeOf<T(==)>(s: State<T>, q: T): State<T> {
    s.(list := Push(s.list, q))
  }

  /** pool_realloc's request for a larger size, which the next pop acts on. */
  function GrowOf<T>(s: State<T>, size: nat): State<T> {
    s.(size := size, realloc := true)
  }

  // ----- the credit counter -----

  /** The counter of a slab from slab_create that was never resized, after `pops` pops. */
  function Credit(pops: nat): (c: nat)
    ensures c == 0 <==> pops > 1 && pops % 12 == 1
  {
    if pops <= BATCH then BATCH + 1 - pops else (BATCH - (pops - 1) % BATCH) % BATCH
  }

  lemma CreditStep(pops: nat)
    ensures Credit(pops + 1) == if Credit(pops) == 0 then BATCH - 1 else Credit(pops) - 1
  {
    if pops > BATCH {
      var q, m := (pops - 1) / BATCH, (pops - 1) % BATCH;
      assert pops == if m + 1 < BATCH then q * BATCH + (m + 1) else (q + 1) * BATCH;
    }
  }

  // ----- the invariant -----

  /** The list is acyclic and starts with `spare` pages never issued; only issued ones follow.
      The counter equals `spare`, or exceeds it by one in a slab never refilled. */
  ghost predicate Inv<T>(s: State<T>, issued: set<T>, spare: nat) {
    && NoDup(s.list) && s.list != [] && spare <= |s.list|
    && (forall i :: 0 <= i < |s.list| ==> (s.list[i] in issued <==> spare <= i))
    && spare <= s.length <= spare + 1
  }

  /** Unless a resize is pending, the pages still to be issued have the slab's size. */
  ghost predicate Sized<T>(s: State<T>, spare: nat, cap: T -> nat)
    requires spare <= |s.list|
  {
    s.realloc || forall i :: 0 <= i < spare ==> cap(s.list[i]) == s.size
  }

  ghost predicate NewBatch<T>(batch: seq<T>, created: set<T>, size: nat, cap: T -> nat) {
    && |batch| == BATCH && NoDup(batch)
    && forall i :: 0 <= i < |batch| ==> batch[i] !in created && cap(batch[i]) == size
  }

  ghost function SpareAfterPop<T>(s: State<T>, spare: nat): nat {
    if Refills(s) then BATCH - 1 else if spare == 0 then 0 else spare - 1
  }

  lemma TakeKeeps<T>(s: State<T>, issued: set<T>, spare: nat, cap: T -> nat)
    requires Inv(s, issued, spare) && Sized(s, spare, cap) && !Refills(s)
    ensures var (t, p) := PopOf(s, []);
            && Inv(t, issued + {p}, SpareAfterPop(s, spare)) && Sized(t, SpareAfterPop(s, spare), cap)
            && (p !in issued <==> spare > 0) && (p !in issued ==> cap(p) == s.size)
  {
  }

  /** A pop keeps the invariant. It issues a new page of the current size in every case but one:
      a slab that was never refilled and whose counter stands at one. */
  lemma PopKeeps<T>(s: State<T>, issued: set<T>, created: set<T>, spare: nat, batch: seq<T>, cap: T -> nat)
    requires Inv(s, issued, spare) && Sized(s, spare, cap) && issued <= created
    requires Refills(s) ==> NewBatch(batch, created, s.size, cap)
    ensures var (t, p) := PopOf(s, batch);
            && Inv(t, issued + {p}, SpareAfterPop(s, spare)) && Sized(t, SpareAfterPop(s, spare), cap)
            && (p !in issued <==> Refills(s) || spare > 0)
            && (p !in issued ==> cap(p) == s.size)
            && (s.length == spare || Refills(s) ==> t.length == SpareAfterPop(s, spare))
  {
    if Refills(s) {
      var full := State(batch, BATCH, s.size, false);
      assert forall i :: 0 <= i < |batch| ==> batch[i] !in issued;
      TakeKeeps(full, issued, BATCH, cap);
      assert PopOf(s, batch) == PopOf(full, []);
    } else {
      TakeKeeps(s, issued, spare, cap);
    }
  }

  /** Freeing an issued page, however often, keeps the invariant and issues nothing. */
  lemma FreeKeeps<T>(s: State<T>, issued: set<T>, spare: nat, q: T, cap: T -> nat)
    requires Inv(s, issued, spare) && Sized(s, spare, cap) && q in issued
    ensures Inv(FreeOf(s, q), issued, spare) && Sized(FreeOf(s, q), spare, cap)
  {
  }

  // ----- whole runs -----

  /** A pop names the batch its refill would create. */
  datatype Op<T> = Pop(batch: seq<T>) | Free(page: T) | Grow(size: nat)

  /** A page a run issued, with the slab's size at that moment. */
  datatype Issue<T> = Issue(page: T, size: nat)

  function Step<T(==)>(s: State<T>, op: Op<T>): State<T>
    requires op.Pop? ==> op.batch != [] && (Refills(s) || s.list != [])
  {
    match op
    case Pop(batch) => PopOf(s, batch).0
    case Free(q) => FreeOf(s, q)
    case Grow(n) => GrowOf(s, n)
  }

  /** Batches are new pages of the current size, and only issued pages are freed. */
  ghost predicate Legal<T>(s: State<T>, issued: set<T>, created: set<T>, ops: seq<Op<T>>, cap: T -> nat)
    decreases |ops|
  {
    ops == [] ||
    match ops[0]
    case Pop(batch) =>
      && NewBatch(batch, created, s.size, cap) && (Refills(s) || s.list != [])
      && Legal(Step(s, ops[0]), issued + {PopOf(s, batch).1}, created + (set x | x in batch), ops[1..], cap)
    case Free(q) => q in issued && Legal(Step(s, ops[0]), issued, created, ops[1..], cap)
    case Grow(n) => Legal(Step(s, ops[0]), issued, created, ops[1..], cap)
  }

  ghost function Issues<T>(s: State<T>, issued: set<T>, created: set<T>, ops: seq<Op<T>>, cap: T -> nat): seq<Issue<T>>
    requires Legal(s, issued, created, ops, cap)
    decreases |ops|
  {
    if ops == [] then []
    else match ops[0]
      case Pop(batch) =>
        var (t, p) := PopOf(s, batch);
        [Issue(p, s.size)] + Issues(t, issued + {p}, created + (set x | x in batch), ops[1..], cap)
      case Free(q) => Issues(FreeOf(s, q), issued, created, ops[1..], cap)
      case Grow(n) => Issues(GrowOf(s, n), issued, created, ops[1..], cap)
  }

  ghost predicate Holds<T>(s: State<T>, issued: set<T>, created: set<T>, spare: nat, cap: T -> nat) {
    && Inv(s, issued, spare) && Sized(s, spare, cap) && issued <= created
    && forall x :: x in s.list ==> x in created
  }

  ghost predicate AllNew<T>(out: seq<Issue<T>>, issued: set<T>, cap: T -> nat) {
    && (forall i :: 0 <= i < |out| ==> out[i].page !in issued && cap(out[i].page) == out[i].size)
    && (forall i, j :: 0 <= i < j < |out| ==> out[i].page != out[j].page)
  }

  /** From a slab that was refilled, or is about to be, whatever is popped, freed (repeatedly too)
      and resized: no page is issued twice, and each has the size its slab had when it was popped. */
  lemma {:induction false} RunsIssueNewPages<T>(s: State<T>, issued: set<T>, created: set<T>, spare: nat,
                                                ops: seq<Op<T>>, cap: T -> nat)
    requires Holds(s, issued, created, spare, cap) && (s.realloc || s.length == spare)
    requires Legal(s, issued, created, ops, cap)
    ensures AllNew(Issues(s, issued, created, ops, cap), issued, cap)
    decreases |ops|
  {
    if ops != [] {
      match ops[0]
      case Pop(batch) =>
        PopKeeps(s, issued, created, spare, batch, cap);
        var (t, p) := PopOf(s, batch);
        var more := created + (set x | x in batch);
        RunsIssueNewPages(t, issued + {p}, more, SpareAfterPop(s, spare), ops[1..], cap);
        var rest := Issues(t, issued + {p}, more, ops[1..], cap);
        assert Issues(s, issued, created, ops, cap) == [Issue(p, s.size)] + rest;
      case Free(q) =>
        FreeKeeps(s, issued, spare, q, cap);
        RunsIssueNewPages(FreeOf(s, q), issued, created, spare, ops[1..], cap);
      case Grow(n) =>
        RunsIssueNewPages(GrowOf(s, n), issued, created, spare, ops[1..], cap);
    }
  }

  // ----- runs of a slab that was never refilled -----

  /** Issue `i` is a page that was issued before. */
  ghost predicate Repeats<T>(out: seq<Issue<T>>, issued: set<T>, i: nat)
    requires i < |out|
  {
    out[i].page in issued || exists j :: 0 <= j < i && out[j].page == out[i].page
  }

  /** Issue number `n` repeats a page if `does`, and no other issue does. */
  ghost predicate OnlyRepeats<T>(out: seq<Issue<T>>, issued: set<T>, n: nat, does: bool) {
    forall i :: 0 <= i < |out| ==> (Repeats(out, issued, i) <==> i == n && does)
  }

  /** How many pops come before the first resize. */
  function PopsFirst<T>(ops: seq<Op<T>>): nat {
    if ops == [] || ops[0].Grow? then 0 else PopsFirst(ops[1..]) + if ops[0].Pop? then 1 else 0
  }

  /** With a counter one ahead of `n` pages never issued, issue number `n` is the only one that
      repeats a page, and it does if and only if that many pops come before the first resize. */
  lemma {:induction false} OneIssueRepeats<T>(s: State<T>, issued: set<T>, created: set<T>, n: nat, ops: seq<Op<T>>,
                                              cap: T -> nat)
    requires Holds(s, issued, created, n, cap) && s.length == n + 1 && !s.realloc
    requires Legal(s, issued, created, ops, cap)
    ensures OnlyRepeats(Issues(s, issued, created, ops, cap), issued, n, n < PopsFirst(ops))
    decreases |ops|
  {
    if ops != [] {
      match ops[0]
      case Pop(batch) =>
        PopKeeps(s, issued, created, n, batch, cap);
        var (t, p) := PopOf(s, batch);
        var more := created + (set x | x in batch);
        var rest := Issues(t, issued + {p}, more, ops[1..], cap);
        assert Issues(s, issued, created, ops, cap) == [Issue(p, s.size)] + rest;
        if n == 0 {
          RunsIssueNewPages(t, issued + {p}, more, 0, ops[1..], cap);
          AllNewNeverRepeats(rest, issued + {p}, cap);
        } else {
          OneIssueRepeats(t, issued + {p}, more, n - 1, ops[1..], cap);
        }
        RepeatsLater(Issue(p, s.size), rest, issued);
      case Free(q) =>
        FreeKeeps(s, issued, n, q, cap);
        OneIssueRepeats(FreeOf(s, q), issued, created, n, ops[1..], cap);
      case Grow(size) =>
        RunsIssueNewPages(GrowOf(s, size), issued, created, n, ops[1..], cap);
        AllNewNeverRepeats(Issues(GrowOf(s, size), issued, created, ops[1..], cap), issued, cap);
    }
  }

  lemma AllNewNeverRepeats<T>(out: seq<Issue<T>>, issued: set<T>, cap: T -> nat)
    requires AllNew(out, issued, cap)
    ensures forall i :: 0 <= i < |out| ==> !Repeats(out, issued, i)
  {
  }

  lemma RepeatsLater<T>(first: Issue<T>, rest: seq<Issue<T>>, issued: set<T>)
    ensures var out := [first] + rest;
            && (Repeats(out, issued, 0) <==> first.page in issued)
            && forall i :: 1 <= i < |out| ==> (Repeats(out, issued, i) <==> Repeats(rest, issued + {first.page}, i - 1))
  {
    var out := [first] + rest;
    forall i | 1 <= i < |out|
      ensures Repeats(out, issued, i) <==> Repeats(rest, issued + {first.page}, i - 1)
    {
      if j :| 0 <= j < i && out[j].page == out[i].page {
        assert j == 0 || rest[j - 1].page == rest[i - 1].page;
      }
      if j :| 0 <= j < i - 1 && rest[j].page == rest[i - 1].page {
        assert out[j + 1].page == out[i].page;
      }
    }
  }

  /** The state slab_create leaves: twelve linked pages, but a counter of thirteen. */
  function Created<T>(batch: seq<T>, size: nat): State<T> {
    State(batch, |batch| + 1, size, false)
  }

  /** Every run of a slab straight from slab_create: its first twelve issues are new pages, the
      thirteenth repeats one if and only if no resize came before it, and all later ones are new. */
  lemma ThirteenthIssueRepeats<T>(batch: seq<T>, size: nat, ops: seq<Op<T>>, cap: T -> nat)
    requires NewBatch(batch, {}, size, cap)
    requires Legal(Created(batch, size), {}, (set x | x in batch), ops, cap)
    ensures var out := Issues(Created(batch, size), {}, (set x | x in batch), ops, cap);
            OnlyRepeats(out, {}, BATCH, BATCH < PopsFirst(ops))
  {
    OneIssueRepeats(Created(batch, size), {}, (set x | x in batch), BATCH, ops, cap);
  }

  /** So whatever happens in between, the first twelve pages differ. */
  lemma FirstIssuesDiffer<T>(batch: seq<T>, size: nat, ops: seq<Op<T>>, cap: T -> nat, i: nat, j: nat)
    requires NewBatch(batch, {}, size, cap)
    requires Legal(Created(batch, size), {}, (set x | x in batch), ops, cap)
    requires i < j < BATCH && j < |Issues(Created(batch, size), {}, (set x | x in batch), ops, cap)|
    ensures var out := Issues(Created(batch, size), {}, (set x | x in batch), ops, cap);
            out[i].page != out[j].page
  {
    ThirteenthIssueRepeats(batch, size, ops, cap);
    var out := Issues(Created(batch, size), {}, (set x | x in batch), ops, cap);
    assert !Repeats(out, {}, j);
  }

  /** A slab straight from slab_create issues its last page twice when nothing is freed: the last
      page of a list is never unlinked, and the counter allows one pop more than there are pages. */
  lemma LastPageIsIssuedTwice<T>(batch: seq<T>, size: nat, next: seq<T>)
    requires batch != [] && next != []
    ensures var last := batch[|batch| - 1];
            && Pops(Created(batch, size), next, |batch| - 1) == State([last], 2, size, false)
            && PopOf(State([last], 2, size, false), next) == (State([last], 1, size, false), last)
            && PopOf(State([last], 1, size, false), next).1 == last
  {
    var n := |batch| - 1;
    assert batch[0..] == batch && batch[n..] == [batch[n]];
    PopsFrom(batch, 0, size, next, n);
  }

  function Pops<T>(s: State<T>, next: seq<T>, n: nat): State<T>
    requires next != []
    decreases n
  {
    if n == 0 || s.list == [] then s
    else Pops(PopOf(s, next).0, next, n - 1)
  }

  lemma {:induction false} PopsFrom<T>(batch: seq<T>, k: nat, size: nat, next: seq<T>, n: nat)
    requires k + n < |batch| && next != []
    ensures Pops(State(batch[k..], |batch| + 1 - k, size, false), next, n) ==
            State(batch[k + n..], |batch| + 1 - (k + n), size, false)
    decreases n
  {
    if n > 0 {
      assert Unlink(batch[k..], 0) == batch[k + 1..];
      PopsFrom(batch, k + 1, size, next, n - 1);
    }
  }
}
