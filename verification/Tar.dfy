/** The ustar reader (POSIX.1-2017, pax, "ustar Interchange Format") over a memory of bytes. */
module Tar {
  import opened Arith

  const BLOCK: nat := 512
  const NAME_FIELD: nat := 100
  const SIZE_AT: nat := 124
  const SIZE_DIGITS: nat := 11

  /** One character per address. */
  type Memory = int -> char

  /** What tar_read reports of a member: its name, its size, and where its data starts. */
  datatype Block = Block(name: string, size: nat, data: nat)

  // ----- reading -----

  /** The characters from `at` up to a NUL, at most `n` of them. */
  function CString(mem: Memory, at: nat, n: nat): string
    decreases n
  {
    if n == 0 || mem(at) == '\0' then [] else [mem(at)] + CString(mem, at + 1, n - 1)
  }

  /** `c - '0'`. */
  function Digit(c: char): int {
    SignedChar(c) - '0' as int
  }

  /** Digits weighted by powers of eight, most significant first. */
  function Octal(digits: seq<char>): int {
    if digits == [] then 0
    else Octal(digits[..|digits| - 1]) * 8 + Digit(digits[|digits| - 1])
  }

  function Chars(mem: Memory, at: nat, n: nat): (s: string)
    ensures |s| == n && forall i :: 0 <= i < n ==> s[i] == mem(at + i)
  {
    if n == 0 then [] else Chars(mem, at, n - 1) + [mem(at + (n - 1))]
  }

  function SizeField(mem: Memory, header: nat): nat {
    U64(Octal(Chars(mem, header + SIZE_AT, SIZE_DIGITS)))
  }

  /** Header and data, the data rounded up to whole blocks. */
  function Span(size: nat): nat {
    (size / BLOCK + 1) * BLOCK + if size % BLOCK != 0 then BLOCK else 0
  }

  /** The next header is at the first block boundary behind the data. */
  lemma SpanInNumbers(size: nat)
    ensures Span(size) % 512 == 0 && 512 + size <= Span(size) < 1024 + size
  {
  }

  /** The header of member `i` counted from `header`, unless the archive ends before it. */
  function Skip(mem: Memory, header: nat, i: nat): Option<nat>
    decreases i
  {
    if mem(header) == '\0' then None
    else if i == 0 then Some(header)
    else Skip(mem, header + Span(SizeField(mem, header)), i - 1)
  }

  function Read(mem: Memory, tar: nat, i: nat): Option<Block> {
    match Skip(mem, tar, i)
    case None => None
    case Some(h) => Some(Block(CString(mem, h, NAME_FIELD), SizeField(mem, h), h + BLOCK))
  }

  /** read_size, least significant digit first. */
  method ReadSize(mem: Memory, header: nat) returns (size: nat)
    ensures size == SizeField(mem, header)
  {
    var at := header + SIZE_AT;
    ghost var s := Chars(mem, at, SIZE_DIGITS);
    size := 0;
    var count := 1;
    var j: nat := SIZE_DIGITS;
    assert s[..j] == s;
    ghost var sum := 0;
    while j > 0
      invariant j <= SIZE_DIGITS && count == Power8(SIZE_DIGITS - j)
      invariant size == U64(sum) && Octal(s) == Octal(s[..j]) * count + sum
    {
      var digit := Digit(mem(at + (j - 1)));
      assert s[..j][..j - 1] == s[..j - 1];
      Regroup(Octal(s[..j - 1]), digit, count, sum);
      WrapOnce(sum, digit * count);
      sum := sum + digit * count;
      size := U64(size + digit * count);
      count := count * 8;
      j := j - 1;
    }
    assert s[..0] == [];
  }

  function Power8(k: nat): (p: nat)
    ensures p > 0
  {
    if k == 0 then 1 else 8 * Power8(k - 1)
  }

  lemma Regroup(high: int, digit: int, count: int, sum: int)
    ensures (high * 8 + digit) * count + sum == high * (count * 8) + (sum + digit * count)
  {
  }

  lemma WrapOnce(a: int, b: int)
    ensures U64(U64(a) + b) == U64(a + b)
  {
    ModDrops(U64(a) + b, a / W64, W64);
  }

  /** The record tar_read fills in, in the caller's memory. */
  class TarBlock {
    var name: string
    var size: nat
    var data: nat

    constructor ()
    {
      name, size, data := "", 0, 0;
    }

    ghost function Contents(): Block
      reads this
    {
      Block(name, size, data)
    }
  }

  /** tar_read: every call walks the archive from its start. */
  method TarRead(mem: Memory, tar: nat, block: TarBlock, i: nat) returns (ok: bool)
    modifies block
    ensures ok == Read(mem, tar, i).Some?
    ensures block.Contents() == if ok then Read(mem, tar, i).value else old(block.Contents())
  {
    hide SizeField, CString;
    var header: nat := tar;
    var j: nat := 0;
    while j < i
      invariant j <= i && Skip(mem, tar, i) == Skip(mem, header, i - j)
      invariant block.Contents() == old(block.Contents())
    {
      if mem(header) == '\0' {
        return false;
      }
      var size := ReadSize(mem, header);
      header := header + (size / BLOCK + 1) * BLOCK;
      if size % BLOCK != 0 {
        header := header + BLOCK;
      }
      j := j + 1;
    }
    if mem(header) == '\0' {
      return false;
    }
    block.name := CString(mem, header, NAME_FIELD);
    block.size := ReadSize(mem, header);
    block.data := header + BLOCK;
    return true;
  }

  // ----- archives -----

  /** `name` has no NUL and leaves room for one; `content` is below the size field's range. */
  datatype Member = Member(name: string, content: string)
  {
    ghost predicate Ok() {
      0 < |name| < NAME_FIELD && '\0' !in name && |content| < Power8(SIZE_DIGITS)
    }
  }

  ghost predicate Holds(mem: Memory, at: nat, s: string) {
    forall k :: 0 <= k < |s| ==> mem(at + k) == s[k]
  }

  ghost predicate IsHeader(mem: Memory, at: nat, m: Member) {
    && Holds(mem, at, m.name) && mem(at + |m.name|) == '\0'
    && Octal(Chars(mem, at + SIZE_AT, SIZE_DIGITS)) == |m.content|
  }

  /** Headers each followed by their data in whole blocks, then a block starting with a NUL. What
      the reader does not look at may be anything. */
  ghost predicate IsArchive(mem: Memory, at: nat, members: seq<Member>)
    decreases |members|
  {
    if members == [] then mem(at) == '\0'
    else
      var m := members[0];
      && m.Ok() && IsHeader(mem, at, m) && Holds(mem, at + BLOCK, m.content)
      && IsArchive(mem, at + Span(|m.content|), members[1..])
  }

  ghost function Offset(members: seq<Member>, at: nat, i: nat): nat
    requires i <= |members|
  {
    if i == 0 then at else Offset(members[1..], at + Span(|members[0].content|), i - 1)
  }

  lemma {:induction false} CStringOfName(mem: Memory, at: nat, name: string, n: nat)
    requires '\0' !in name && |name| < n
    requires Holds(mem, at, name) && mem(at + |name|) == '\0'
    ensures CString(mem, at, n) == name
    decreases n
  {
    if name != [] {
      assert mem(at + 0) == name[0] && name[0] in name;
      forall k | 0 <= k < |name| - 1
        ensures mem(at + 1 + k) == name[1..][k]
      {
        assert mem(at + (k + 1)) == name[k + 1];
      }
      assert forall c :: c in name[1..] ==> c in name;
      CStringOfName(mem, at + 1, name[1..], n - 1);
    }
  }

  lemma Power8Bound()
    ensures Power8(SIZE_DIGITS) == 0x2_0000_0000 < W64
  {
    assert Power8(3) == 512;
    assert Power8(6) == 512 * 512;
    assert Power8(9) == 512 * 512 * 512;
  }

  lemma HeaderReads(mem: Memory, at: nat, m: Member)
    requires m.Ok() && IsHeader(mem, at, m)
    ensures mem(at) != '\0' && SizeField(mem, at) == |m.content| && CString(mem, at, NAME_FIELD) == m.name
  {
    assert mem(at + 0) == m.name[0] && m.name[0] in m.name;
    CStringOfName(mem, at, m.name, NAME_FIELD);
    Power8Bound();
  }

  /** tar_read inverts the archive: index `i` yields member `i`, and no index past the end any. */
  lemma {:induction false} ReadInvertsArchive(mem: Memory, at: nat, members: seq<Member>, i: nat)
    requires IsArchive(mem, at, members)
    ensures i >= |members| ==> Read(mem, at, i) == None
    ensures i < |members| ==>
              var m := members[i];
              var b := Block(m.name, |m.content|, Offset(members, at, i) + BLOCK);
              Read(mem, at, i) == Some(b) && Holds(mem, b.data, m.content) && m.Ok()
    decreases i
  {
    hide SizeField, CString, Holds, IsHeader;
    if members != [] {
      var m := members[0];
      HeaderReads(mem, at, m);
      if i > 0 {
        ReadInvertsArchive(mem, at + Span(|m.content|), members[1..], i - 1);
      }
    }
  }

  // ----- the format in numbers -----

  /** A header of 512 bytes at `at`: the NUL-terminated name first, the size as eleven octal digits at
      124, the data behind it, and at `next` the first block boundary behind the data. */
  ghost predicate StandsAt(mem: Memory, at: nat, next: nat, m: Member) {
    && 0 < |m.name| < 100 && '\0' !in m.name && |m.content| < 0x2_0000_0000
    && Holds(mem, at, m.name) && mem(at + |m.name|) == '\0'
    && Octal(Chars(mem, at + 124, 11)) == |m.content|
    && Holds(mem, at + 512, m.content)
    && at + 512 + |m.content| <= next < at + 1024 + |m.content| && (next - at) % 512 == 0
  }

  /** An archive with its headers at `heads`, the last one a block that starts with a NUL. */
  ghost predicate IsUstar(mem: Memory, heads: seq<nat>, members: seq<Member>) {
    && |heads| == |members| + 1 && mem(heads[|members|]) == '\0'
    && forall i :: 0 <= i < |members| ==> StandsAt(mem, heads[i], heads[i + 1], members[i])
  }

  lemma StandsBySpan(mem: Memory, at: nat, next: nat, m: Member)
    ensures StandsAt(mem, at, next, m) <==>
            m.Ok() && IsHeader(mem, at, m) && Holds(mem, at + BLOCK, m.content) && next == at + Span(|m.content|)
  {
    Power8Bound();
    SpanInNumbers(|m.content|);
    hide Span, Octal, Chars, Holds;
  }

  /** tar_read on an archive laid out so: index `i` gives member `i`, with its data behind its header, and
      no index past the end any. */
  lemma ReadsUstar(mem: Memory, heads: seq<nat>, members: seq<Member>, i: nat)
    requires IsUstar(mem, heads, members)
    ensures IsArchive(mem, heads[0], members)
    ensures Read(mem, heads[0], i) ==
            if i < |members| then Some(Block(members[i].name, |members[i].content|, heads[i] + 512)) else None
  {
    hide Span, StandsAt, Holds, IsHeader, Read;
    UstarIsArchive(mem, heads, members);
    ReadInvertsArchive(mem, heads[0], members, i);
    if i < |members| {
      UstarOffset(mem, heads, members, i);
    }
  }

  lemma {:induction false} UstarIsArchive(mem: Memory, heads: seq<nat>, members: seq<Member>)
    requires IsUstar(mem, heads, members)
    ensures IsArchive(mem, heads[0], members)
    decreases |members|
  {
    hide Span, StandsAt, Holds, IsHeader, Member.Ok;
    if members != [] {
      assert StandsAt(mem, heads[0], heads[1], members[0]);
      StandsBySpan(mem, heads[0], heads[1], members[0]);
      UstarIsArchive(mem, heads[1..], members[1..]);
    }
  }

  lemma {:induction false} UstarOffset(mem: Memory, heads: seq<nat>, members: seq<Member>, i: nat)
    requires IsUstar(mem, heads, members) && i < |members|
    ensures Offset(members, heads[0], i) == heads[i]
    decreases i
  {
    hide Span, StandsAt, Holds, IsHeader, Member.Ok;
    if i > 0 {
      assert StandsAt(mem, heads[0], heads[1], members[0]);
      StandsBySpan(mem, heads[0], heads[1], members[0]);
      UstarOffset(mem, heads[1..], members[1..], i - 1);
    }
  }

  /** And only such memory is an archive. */
  lemma {:induction false} ArchiveIsUstar(mem: Memory, at: nat, members: seq<Member>) returns (heads: seq<nat>)
    requires IsArchive(mem, at, members)
    ensures IsUstar(mem, heads, members) && heads[0] == at
    decreases |members|
  {
    hide Span, StandsAt, Holds, IsHeader, Member.Ok;
    if members == [] {
      heads := [at];
    } else {
      var next := at + Span(|members[0].content|);
      var rest := ArchiveIsUstar(mem, next, members[1..]);
      StandsBySpan(mem, at, next, members[0]);
      heads := [at] + rest;
      forall i | 0 <= i < |members|
        ensures StandsAt(mem, heads[i], heads[i + 1], members[i])
      {
        assert i > 0 ==> StandsAt(mem, rest[i - 1], rest[i], members[1..][i - 1]);
      }
    }
  }

  // ----- writing -----

  function OctalDigits(n: nat, k: nat): (s: seq<char>)
    ensures |s| == k && forall i :: 0 <= i < k ==> '0' <= s[i] <= '7'
  {
    if k == 0 then [] else OctalDigits(n / 8, k - 1) + [('0' as int + n % 8) as char]
  }

  lemma LastOctalDigit(n: nat, p: nat)
    requires n < 8 * p
    ensures n / 8 < p && n == n / 8 * 8 + n % 8
  {
  }

  lemma {:induction false} OctalRoundTrip(n: nat, k: nat)
    requires n < Power8(k)
    ensures Octal(OctalDigits(n, k)) == n
  {
    hide Octal, OctalDigits, Power8, Digit;
    OctalUnfolds(n, k);
    if k > 0 {
      LastOctalDigit(n, Power8(k - 1));
      OctalRoundTrip(n / 8, k - 1);
      OctalSnoc(OctalDigits(n / 8, k - 1), n % 8);
    }
  }

  lemma OctalUnfolds(n: nat, k: nat)
    ensures k == 0 ==> Octal(OctalDigits(n, k)) == 0 && Power8(k) == 1
    ensures k > 0 ==> Power8(k) == 8 * Power8(k - 1)
    ensures k > 0 ==> OctalDigits(n, k) == OctalDigits(n / 8, k - 1) + [('0' as int + n % 8) as char]
  {
  }

  lemma OctalSnoc(s: seq<char>, d: nat)
    requires d < 8
    ensures Octal(s + [('0' as int + d) as char]) == Octal(s) * 8 + d
  {
    var more := s + [('0' as int + d) as char];
    assert more[..|more| - 1] == s;
  }

  function Zeros(n: nat): (s: string)
    ensures |s| == n && forall i :: 0 <= i < n ==> s[i] == '\0'
  {
    seq(n, _ => '\0')
  }

  /** A member as a ustar writer lays it out: NUL-padded name, size in octal, padded data. */
  function WriteMember(m: Member): (s: string)
    requires |m.name| < NAME_FIELD
    ensures |s| == Span(|m.content|)
  {
    var header := m.name + Zeros(SIZE_AT - |m.name|) + OctalDigits(|m.content|, SIZE_DIGITS)
                  + Zeros(BLOCK - SIZE_AT - SIZE_DIGITS);
    header + m.content + Zeros(Span(|m.content|) - BLOCK - |m.content|)
  }

  function Write(members: seq<Member>): string
    requires forall m :: m in members ==> |m.name| < NAME_FIELD
  {
    if members == [] then Zeros(BLOCK) else WriteMember(members[0]) + Write(members[1..])
  }

  lemma HoldsSplit(mem: Memory, at: nat, s: string, t: string)
    ensures Holds(mem, at, s + t) <==> Holds(mem, at, s) && Holds(mem, at + |s|, t)
  {
    if Holds(mem, at, s + t) {
      forall k | 0 <= k < |s|
        ensures mem(at + k) == s[k]
      {
        assert (s + t)[k] == s[k];
      }
      forall k | 0 <= k < |t|
        ensures mem(at + |s| + k) == t[k]
      {
        assert mem(at + (|s| + k)) == (s + t)[|s| + k];
      }
    }
    if Holds(mem, at, s) && Holds(mem, at + |s|, t) {
      forall k | 0 <= k < |s + t|
        ensures mem(at + k) == (s + t)[k]
      {
        if k >= |s| {
          assert mem(at + |s| + (k - |s|)) == t[k - |s|];
        }
      }
    }
  }

  /** What the writer wrote is an archive, so reading gives the members back. */
  lemma {:induction false} WrittenIsArchive(mem: Memory, at: nat, members: seq<Member>)
    requires forall m :: m in members ==> m.Ok() && |m.name| < NAME_FIELD
    requires Holds(mem, at, Write(members))
    ensures IsArchive(mem, at, members)
    decreases |members|
  {
    hide Holds, WriteMember, IsHeader, Span, Power8;
    if members == [] {
      ZerosEnd(mem, at);
    } else {
      var m := members[0];
      assert m in members && forall x :: x in members[1..] ==> x in members;
      HoldsSplit(mem, at, WriteMember(m), Write(members[1..]));
      WrittenMember(mem, at, m);
      WrittenIsArchive(mem, at + Span(|m.content|), members[1..]);
    }
  }

  lemma ZerosEnd(mem: Memory, at: nat)
    requires Holds(mem, at, Zeros(BLOCK))
    ensures mem(at) == '\0'
  {
    assert mem(at + 0) == Zeros(BLOCK)[0];
  }

  lemma WrittenMember(mem: Memory, at: nat, m: Member)
    requires m.Ok() && |m.name| < NAME_FIELD && Holds(mem, at, WriteMember(m))
    ensures IsHeader(mem, at, m) && Holds(mem, at + BLOCK, m.content)
  {
    var n, z := m.name, Zeros(SIZE_AT - |m.name|);
    var d, y := OctalDigits(|m.content|, SIZE_DIGITS), Zeros(BLOCK - SIZE_AT - SIZE_DIGITS);
    var x := Zeros(Span(|m.content|) - BLOCK - |m.content|);
    HoldsSplit(mem, at, n + z + d + y + m.content, x);
    HoldsSplit(mem, at, n + z + d + y, m.content);
    HoldsSplit(mem, at, n + z + d, y);
    HoldsSplit(mem, at, n + z, d);
    HoldsSplit(mem, at, n, z);
    assert mem(at + |n| + 0) == z[0];
    assert Chars(mem, at + SIZE_AT, SIZE_DIGITS) == d;
    OctalRoundTrip(|m.content|, SIZE_DIGITS);
  }
}
