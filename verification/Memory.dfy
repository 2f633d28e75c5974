/** memmove, memcpy and memset over one array of bytes; an address is an index into it. */
module Memory {
  import opened Arith

  type Byte = x: int | 0 <= x < 256

  const WORD: nat := 4
  const LONG: nat := 8

  /** The memory after the `n` bytes at `src` have been put at `dest`. */
  function Moved(m: seq<Byte>, dest: nat, src: nat, n: nat): (r: seq<Byte>)
    requires dest + n <= |m| && src + n <= |m|
    ensures |r| == |m| && r[dest..dest + n] == m[src..src + n]
    ensures forall k :: 0 <= k < |m| && !(dest <= k < dest + n) ==> r[k] == m[k]
  {
    m[..dest] + m[src..src + n] + m[dest + n..]
  }

  /** Of the move, the bytes from `lo` to `hi` have been put in place. */
  ghost predicate Partly(now: seq<Byte>, m: seq<Byte>, dest: nat, src: nat, lo: int, hi: int)
    requires 0 <= lo <= hi && src + hi <= |m|
  {
    && |now| == |m|
    && forall k {:trigger now[k]} :: 0 <= k < |m| ==>
         now[k] == if dest + lo <= k < dest + hi then m[src + (k - dest)] else m[k]
  }

  lemma WhollyIsMoved(now: seq<Byte>, m: seq<Byte>, dest: nat, src: nat, n: nat)
    requires dest + n <= |m| && src + n <= |m| && Partly(now, m, dest, src, 0, n)
    ensures now == Moved(m, dest, src, n)
  {
    var r := Moved(m, dest, src, n);
    forall k | 0 <= k < |m|
      ensures now[k] == r[k]
    {
      if dest <= k < dest + n {
        assert r[dest..dest + n][k - dest] == m[src..src + n][k - dest];
      }
    }
  }

  /** memmove. The offsets are 64 bits wide, and the walk down ends at -1. */
  method MemMove(mem: array<Byte>, dest: nat, src: nat, n: nat)
    requires dest + n <= mem.Length && src + n <= mem.Length < W64
    modifies mem
    ensures mem[..] == Moved(old(mem[..]), dest, src, n)
  {
    ghost var m := mem[..];
    if dest != src {
      var operation: int, current: nat, end: nat := 1, 0, n;
      if dest >= src {
        operation, current, end := -1, U64(n - 1), U64(-1);
      }
      ghost var up, done := dest < src, 0;
      while current != end
        invariant 0 <= done <= n && operation == (if up then 1 else -1) && end == (if up then n else W64 - 1)
        invariant current == if up then done else if done < n then n - 1 - done else W64 - 1
        invariant Partly(mem[..], m, dest, src, if up then 0 else n - done, if up then done else n)
        decreases n - done
      {
        mem[dest + current] := mem[src + current];
        current := U64(current + operation);
        done := done + 1;
      }
      WhollyIsMoved(mem[..], m, dest, src, n);
    }
  }

  /** memcpy: whole longs where everything is aligned to them, single bytes otherwise. Both
      give what memmove gives, unless the source is overwritten before it is read. */
  method MemCpy(mem: array<Byte>, dest: nat, src: nat, n: nat)
    requires dest + n <= mem.Length && src + n <= mem.Length
    requires dest <= src || src + n <= dest
    modifies mem
    ensures mem[..] == Moved(old(mem[..]), dest, src, n)
  {
    if dest % LONG == 0 && src % LONG == 0 && n % LONG == 0 {
      CopyLongs(mem, dest, src, n);
    } else {
      CopyBytes(mem, dest, src, n);
    }
  }

  method CopyBytes(mem: array<Byte>, dest: nat, src: nat, n: nat)
    requires dest + n <= mem.Length && src + n <= mem.Length
    requires dest <= src || src + n <= dest
    modifies mem
    ensures mem[..] == Moved(old(mem[..]), dest, src, n)
  {
    ghost var m := mem[..];
    for i := 0 to n
      invariant Partly(mem[..], m, dest, src, 0, i)
    {
      mem[dest + i] := mem[src + i];
    }
    WhollyIsMoved(mem[..], m, dest, src, n);
  }

  method CopyLongs(mem: array<Byte>, dest: nat, src: nat, n: nat)
    requires dest + n <= mem.Length && src + n <= mem.Length
    requires dest <= src || src + n <= dest
    requires dest % LONG == 0 && src % LONG == 0 && n % LONG == 0
    modifies mem
    ensures mem[..] == Moved(old(mem[..]), dest, src, n)
  {
    ghost var m := mem[..];
    for i := 0 to n / LONG
      invariant Partly(mem[..], m, dest, src, 0, LONG * i)
    {
      CopyLong(mem, dest, src, LONG * i, n, m);
    }
    WhollyIsMoved(mem[..], m, dest, src, n);
  }

  /** The long at offset `at`. */
  method CopyLong(mem: array<Byte>, dest: nat, src: nat, at: nat, ghost n: nat, ghost m: seq<Byte>)
    requires dest + n <= mem.Length && src + n <= mem.Length && at + LONG <= n && |m| == mem.Length
    requires dest <= src || src + n <= dest
    requires dest % LONG == 0 && src % LONG == 0
    requires Partly(mem[..], m, dest, src, 0, at)
    modifies mem
    ensures Partly(mem[..], m, dest, src, 0, at + LONG)
  {
    var long := mem[src + at..src + at + LONG];
    assert dest <= src ==> dest + at + LONG <= src + at || dest == src;
    Store(mem, dest + at, long);
  }

  /** One store of several bytes. */
  method Store(mem: array<Byte>, at: nat, bytes: seq<Byte>)
    requires at + |bytes| <= mem.Length
    modifies mem
    ensures forall k :: 0 <= k < mem.Length ==> mem[k] == if at <= k < at + |bytes| then bytes[k - at] else old(mem[k])
  {
    forall k | 0 <= k < |bytes| {
      mem[at + k] := bytes[k];
    }
  }

  // ----- memset -----

  /** From an address to the next one aligned to words. */
  function ToWord(at: nat): (d: nat)
    ensures d < WORD && (at + d) % WORD == 0
  {
    if at % WORD == 0 then 0 else WORD - at % WORD
  }

  /** The `k` lowest bytes of a number, least significant first. */
  function Bytes(x: nat, k: nat): (bytes: seq<Byte>)
    ensures |bytes| == k
  {
    if k == 0 then [] else [x % 0x100] + Bytes(x / 0x100, k - 1)
  }

  /** A byte spread over a word by two shifts; the shifted copies do not overlap. */
  function Spread(b: Byte): (x: nat)
    ensures Bytes(x, WORD) == [b, b, b, b]
  {
    var x := b + b * 0x100;
    SpreadBytes(b);
    x + x * 0x1_0000
  }

  lemma LowestByte(b: Byte, x: nat, k: nat)
    ensures Bytes(b + 0x100 * x, k + 1) == [b] + Bytes(x, k)
  {
    assert (b + 0x100 * x) / 0x100 == x;
  }

  lemma SpreadBytes(b: Byte)
    ensures Bytes(b + b * 0x100 + (b + b * 0x100) * 0x1_0000, 4) == [b, b, b, b]
  {
    assert Bytes(b, 1) == [b];
    hide Bytes;
    LowestByte(b, b + 0x100 * (b + 0x100 * b), 3);
    LowestByte(b, b + 0x100 * b, 2);
    LowestByte(b, b, 1);
  }

  /** The bytes from `lo` to `hi` are `x`. */
  ghost predicate Filled(now: seq<Byte>, m: seq<Byte>, lo: nat, hi: nat, x: Byte) {
    && |now| == |m|
    && forall k {:trigger now[k]} :: 0 <= k < |m| ==> now[k] == if lo <= k < hi then x else m[k]
  }

  /** memset's first loop: bytes up to a word boundary. The test of the count takes one off even
      when it fails. */
  method FillToWord(mem: array<Byte>, s: nat, x: Byte, sz: nat) returns (pp: nat, left: nat)
    requires s + sz <= mem.Length
    modifies mem
    ensures s <= pp <= s + sz && Filled(mem[..], old(mem[..]), s, pp, x)
    ensures if sz >= ToWord(s) then pp == s + ToWord(s) && left == s + sz - pp else left == W64 - 1
  {
    left, pp := sz, s;
    while pp % WORD != 0
      invariant 0 <= left <= sz && pp == s + (sz - left) && sz - left <= ToWord(s)
      invariant Filled(mem[..], old(mem[..]), s, pp, x)
      decreases left
    {
      if left == 0 {
        left := U64(left - 1);
        return;
      }
      left := left - 1;
      mem[pp] := x;
      pp := pp + 1;
    }
  }

  /** The word loop, unless it runs off the memory. */
  method FillWords(mem: array<Byte>, at: nat, x: Byte, words: nat, ghost s: nat, ghost m: seq<Byte>)
    returns (pp: nat, returned: bool)
    requires s <= at <= mem.Length && Filled(mem[..], m, s, at, x)
    modifies mem
    ensures returned <==> at + WORD * words <= mem.Length
    ensures returned ==> pp == at + WORD * words && Filled(mem[..], m, s, pp, x)
  {
    var word := Spread(x);
    var left := words;
    pp := at;
    while left > 0
      invariant 0 <= left <= words && pp == at + WORD * (words - left) <= mem.Length
      invariant Filled(mem[..], m, s, pp, x)
    {
      if pp + WORD > mem.Length {
        return pp, false;
      }
      left := left - 1;
      Store(mem, pp, Bytes(word, WORD));
      pp := pp + WORD;
    }
    returned := true;
  }

  /** memset, which returns unless it runs off the memory. It fills exactly `sz` bytes exactly when
      there are enough of them to reach a word boundary: with fewer, the count has wrapped around by
      the time the word loop starts. */
  method MemSet(mem: array<Byte>, s: nat, c: int, sz: nat) returns (returned: bool)
    requires s + sz <= mem.Length < W64 / 2
    modifies mem
    ensures returned <==> sz >= ToWord(s)
    ensures returned ==> Filled(mem[..], old(mem[..]), s, s + sz, c % 0x100)
  {
    var x: Byte := c % 0x100;
    var pp, left := FillToWord(mem, s, x, sz);
    var tail := left % WORD;
    pp, returned := FillWords(mem, pp, x, left / WORD, s, old(mem[..]));
    if !returned {
      return;
    }
    while tail > 0
      invariant 0 <= tail && pp + tail == s + sz
      invariant Filled(mem[..], old(mem[..]), s, pp, x)
    {
      mem[pp] := x;
      pp := pp + 1;
      tail := tail - 1;
    }
  }
}
