/** The physical page allocator: a bitmap over the pages of the usable memory regions. */
module Pmm {
  import opened Arith
  import opened Bitmap

  /** One entry of the boot loader's memory map. */
  datatype Region = Region(base: nat, length: nat, kind: nat)
  {
    function End(): nat { base + length }
  }

  const USABLE: nat := 1

  /** `bits` flags the free pages, of which the allocator scans the first `scan`. */
  datatype State = State(bits: seq<bool>, scan: nat, mmap: seq<Region>)

  datatype Outcome =
    | Page(addr: nat)
    | Null
    | OffMap  // the region scan read past the last entry; the address is garbage

  datatype Op = Alloc | Free(addr: nat)

  // ----- the allocator as functions -----

  function FirstUsable(mmap: seq<Region>, i: nat, least: nat): (r: Option<nat>)
    requires i <= |mmap|
    ensures r.Some? ==> i <= r.value < |mmap| && mmap[r.value].kind == USABLE && mmap[r.value].length >= least
    ensures forall k :: i <= k < (if r.Some? then r.value else |mmap|) ==>
              mmap[k].kind != USABLE || mmap[k].length < least
    decreases |mmap| - i
  {
    if i == |mmap| then None
    else if mmap[i].kind == USABLE && mmap[i].length >= least then Some(i)
    else FirstUsable(mmap, i + 1, least)
  }

  predicate Beyond(r: Region, at: nat) {
    at >= U64(U64(r.End()) + PAGE)
  }

  /** The first region from `i` on that the address `at` is not beyond. */
  function Stop(mmap: seq<Region>, at: nat, i: nat): (r: Option<nat>)
    requires i <= |mmap|
    ensures r.Some? ==> i <= r.value < |mmap| && !Beyond(mmap[r.value], at)
    ensures forall k :: i <= k < (if r.Some? then r.value else |mmap|) ==> Beyond(mmap[k], at)
    decreases |mmap| - i
  {
    if i == |mmap| then None
    else if Beyond(mmap[i], at) then Stop(mmap, at, i + 1)
    else Some(i)
  }

  /** pmm_add: `addr` bytes into the memory that starts at region `entry`. */
  function Add(mmap: seq<Region>, entry: nat, addr: nat): Option<nat>
    requires entry < |mmap|
  {
    match Stop(mmap, U64(mmap[entry].base + addr), entry)
    case None => None
    case Some(i) => Some(U64(mmap[i].base + addr))
  }

  /** What handing out page number `f` of the bitmap yields. */
  function PageAt(mmap: seq<Region>, f: nat): Outcome {
    match FirstUsable(mmap, 0, PAGE)
    case None => Null
    case Some(entry) =>
      match Add(mmap, entry, PAGE * f)
      case None => OffMap
      case Some(a) => Page(AlignUp(a))
  }

  function AllocStep(s: State): (r: (State, Outcome))
    requires s.scan <= |s.bits|
    ensures r.0.mmap == s.mmap && r.0.scan == s.scan && |r.0.bits| == |s.bits|
  {
    match FirstSet(s.bits, 0, s.scan)
    case None => (s, Null)
    case Some(f) =>
      var page := PageAt(s.mmap, f);
      (if page.Null? then s else s.(bits := s.bits[f := false]), page)
  }

  /** The last usable region that holds `addr`, its end included. */
  function Holder(mmap: seq<Region>, addr: nat, n: nat): (r: Option<nat>)
    requires n <= |mmap|
    ensures r.Some? ==> r.value < n && mmap[r.value].kind == USABLE
    ensures r.Some? ==> mmap[r.value].base <= addr <= U64(mmap[r.value].End())
  {
    if n == 0 then None
    else if mmap[n - 1].kind == USABLE && mmap[n - 1].base <= addr <= U64(mmap[n - 1].End()) then Some(n - 1)
    else Holder(mmap, addr, n - 1)
  }

  /** The bit a free of `addr` clears, if any: the byte offset itself, not a page number. */
  function FreedBit(mmap: seq<Region>, addr: nat): Option<nat> {
    match Holder(mmap, addr, |mmap|)
    case None => None
    case Some(i) => Some(addr - mmap[i].base)
  }

  /** The freed address names a bit inside the bitmap's own storage. */
  predicate InRange(mmap: seq<Region>, size: nat, addr: nat) {
    match FreedBit(mmap, addr)
    case None => true
    case Some(i) => i < size
  }

  function FreeStep(s: State, addr: nat): State
    requires InRange(s.mmap, |s.bits|, addr)
  {
    match FreedBit(s.mmap, addr)
    case None => s
    case Some(i) => s.(bits := s.bits[i := false])
  }

  /** The state after pmm_init: the first usable region becomes the bitmap. */
  function Init(mmap: seq<Region>): State {
    match FirstUsable(mmap, 0, 0)
    case None => State([], 0, mmap)
    case Some(i) =>
      var n := mmap[i].length;
      State(AllFree(8 * n), n, mmap[i := Region(mmap[i].End(), 0, USABLE)])
  }

  /** `j` is the last usable region that holds `addr`, its end included. */
  ghost predicate HeldLast(mmap: seq<Region>, addr: nat, j: nat) {
    && j < |mmap| && mmap[j].kind == 1 && mmap[j].base <= addr <= mmap[j].base + mmap[j].length
    && forall k :: j < k < |mmap| ==> !(mmap[k].kind == 1 && mmap[k].base <= addr <= mmap[k].base + mmap[k].length)
  }

  /** A free clears one flag: the one whose number is the distance in bytes of the address from the start
      of its region. */
  lemma FreeInNumbers(s: State, addr: nat, k: nat)
    requires Sane(s) && InRange(s.mmap, |s.bits|, addr) && k < |s.bits|
    ensures FreeStep(s, addr).bits[k] <==>
            s.bits[k] && !exists j: nat :: HeldLast(s.mmap, addr, j) && addr - s.mmap[j].base == k
    ensures FreeStep(s, addr) == s.(bits := FreeStep(s, addr).bits) && |FreeStep(s, addr).bits| == |s.bits|
  {
    HolderInNumbers(s.mmap, s.scan, addr, |s.mmap|);
    var h := Holder(s.mmap, addr, |s.mmap|);
    hide Holder, Sane;
    assert forall j: nat :: HeldLast(s.mmap, addr, j) <==> h == Some(j);
  }

  lemma {:induction false} HolderInNumbers(mmap: seq<Region>, scan: nat, addr: nat, n: nat)
    requires NoWrap(mmap, scan) && n <= |mmap|
    requires forall k :: n <= k < |mmap| ==> !(mmap[k].kind == 1 && mmap[k].base <= addr <= mmap[k].End())
    ensures forall j: nat :: HeldLast(mmap, addr, j) <==> Holder(mmap, addr, n) == Some(j)
  {
    if n > 0 {
      assert mmap[n - 1] in mmap;
      if mmap[n - 1].kind == 1 && mmap[n - 1].base <= addr <= mmap[n - 1].End() {
        assert HeldLast(mmap, addr, n - 1);
        var last := mmap[n - 1];
        forall j: nat | HeldLast(mmap, addr, j)
          ensures j == n - 1
        {
          if j < n - 1 {
            assert false;
          }
        }
      } else {
        HolderInNumbers(mmap, scan, addr, n - 1);
      }
    }
  }

  // ----- what the boot loader promises -----

  ghost predicate Sorted(mmap: seq<Region>) {
    forall i, j :: 0 <= i < j < |mmap| ==> mmap[i].End() <= mmap[j].base
  }

  ghost predicate NoWrap(mmap: seq<Region>, scan: nat) {
    forall r :: r in mmap ==> r.End() + PAGE * (scan + 1) < W64
  }

  ghost predicate Sane(s: State) {
    |s.bits| == 8 * s.scan && Sorted(s.mmap) && NoWrap(s.mmap, s.scan)
  }

  /** Every page that can still be handed out lies at or above `top`. */
  ghost predicate Above(s: State, top: nat)
    requires s.scan <= |s.bits|
  {
    forall f {:trigger PageAt(s.mmap, f)} :: 0 <= f < s.scan && s.bits[f] && PageAt(s.mmap, f).Page? ==>
      top <= PageAt(s.mmap, f).addr
  }

  // ----- spacing of the pages -----

  /** pmm_add is strictly increasing and keeps gaps, across region boundaries too. */
  lemma AddKeepsGaps(mmap: seq<Region>, scan: nat, entry: nat, a: nat, b: nat)
    requires Sorted(mmap) && NoWrap(mmap, scan) && entry < |mmap|
    requires a <= b <= PAGE * scan
    requires Add(mmap, entry, b).Some?
    ensures Add(mmap, entry, a).Some?
    ensures mmap[entry].base + a <= Add(mmap, entry, a).value
    ensures Add(mmap, entry, a).value + (b - a) <= Add(mmap, entry, b).value <= W64 - PAGE
  {
    hide Stop, U64, Beyond;
    var at := mmap[entry].base;
    NothingWraps(mmap, scan, entry, a);
    NothingWraps(mmap, scan, entry, b);
    StopIsMonotone(mmap, U64(at + a), U64(at + b), entry);
    var i, j := Stop(mmap, U64(at + a), entry).value, Stop(mmap, U64(at + b), entry).value;
    NothingWraps(mmap, scan, i, a);
    NothingWraps(mmap, scan, j, b);
    assert at <= mmap[i].base <= mmap[j].base;
  }

  lemma NothingWraps(mmap: seq<Region>, scan: nat, i: nat, a: nat)
    requires NoWrap(mmap, scan) && i < |mmap| && a <= PAGE * scan
    ensures U64(mmap[i].base + a) == mmap[i].base + a <= W64 - PAGE
  {
    assert mmap[i] in mmap;
  }

  lemma {:induction false} StopIsMonotone(mmap: seq<Region>, at: nat, bt: nat, i: nat)
    requires i <= |mmap| && at <= bt && Stop(mmap, bt, i).Some?
    ensures Stop(mmap, at, i).Some? && Stop(mmap, at, i).value <= Stop(mmap, bt, i).value
    decreases |mmap| - i
  {
    hide U64;
    if Beyond(mmap[i], at) {
      StopIsMonotone(mmap, at, bt, i + 1);
    }
  }

  lemma WithoutUsableMemory(mmap: seq<Region>)
    requires Sorted(mmap) && NoWrap(mmap, 0) && FirstUsable(mmap, 0, 0).None?
    ensures Sane(Init(mmap)) && Above(Init(mmap), 0)
  {
  }

  lemma PagesAreSpaced(s: State, f: nat, g: nat)
    requires Sane(s) && f < g < s.scan
    requires PageAt(s.mmap, g).Page?
    ensures PageAt(s.mmap, f).Page?
    ensures PageAt(s.mmap, f).addr + PAGE <= PageAt(s.mmap, g).addr
  {
    var entry := FirstUsable(s.mmap, 0, PAGE).value;
    AddKeepsGaps(s.mmap, s.scan, entry, PAGE * f, PAGE * g);
    AlignUpKeepsGaps(Add(s.mmap, entry, PAGE * f).value, Add(s.mmap, entry, PAGE * g).value, 1);
  }

  /** After boot every flag of the bitmap is set, and the first usable region, whose memory it is, is left
      with no length, starting at its old end. */
  lemma InitInNumbers(mmap: seq<Region>, i: nat)
    requires i < |mmap| && mmap[i].kind == 1 && forall k :: 0 <= k < i ==> mmap[k].kind != 1
    ensures var s := Init(mmap);
            && s.mmap == mmap[i := Region(mmap[i].base + mmap[i].length, 0, 1)]
            && s.scan == mmap[i].length && |s.bits| == 8 * mmap[i].length && forall k :: 0 <= k < |s.bits| ==> s.bits[k]
  {
    var r := FirstUsable(mmap, 0, 0);
    hide FirstUsable;
    assert r.Some? && !(r.value < i);
  }

  /** After the bitmap has been carved out, every page lies above the bitmap's storage. */
  lemma InitIsAbove(mmap: seq<Region>, i: nat)
    requires Sorted(mmap) && FirstUsable(mmap, 0, 0) == Some(i) && NoWrap(mmap, mmap[i].length)
    ensures Sane(Init(mmap))
    ensures Above(Init(mmap), mmap[i].End())
  {
    hide Sane, Stop, AlignUp, Beyond;
    var s := Init(mmap);
    InitIsSane(mmap, i);
    EarlierIsSmaller(mmap, i);
    forall f | 0 <= f < s.scan && PageAt(s.mmap, f).Page?
      ensures mmap[i].End() <= PageAt(s.mmap, f).addr
    {
      var entry := FirstUsable(s.mmap, 0, PAGE).value;
      StartsBehind(s, mmap[i].End(), entry, f);
    }
  }

  lemma InitIsSane(mmap: seq<Region>, i: nat)
    requires Sorted(mmap) && FirstUsable(mmap, 0, 0) == Some(i) && NoWrap(mmap, mmap[i].length)
    ensures Sane(Init(mmap))
  {
    var s := Init(mmap);
    assert forall r :: r in s.mmap ==> r in mmap || r == s.mmap[i];
    assert mmap[i] in mmap;
  }

  /** The first region large enough for a page comes after the one that became the bitmap. */
  lemma EarlierIsSmaller(mmap: seq<Region>, i: nat)
    requires Sorted(mmap) && FirstUsable(mmap, 0, 0) == Some(i)
    ensures var m := Init(mmap).mmap;
            FirstUsable(m, 0, PAGE).Some? ==> m[FirstUsable(m, 0, PAGE).value].base >= mmap[i].End()
  {
  }

  lemma StartsBehind(s: State, floor: nat, entry: nat, f: nat)
    requires Sane(s) && FirstUsable(s.mmap, 0, PAGE) == Some(entry) && f < s.scan && s.mmap[entry].base >= floor
    requires PageAt(s.mmap, f).Page?
    ensures floor <= PageAt(s.mmap, f).addr
  {
    AddKeepsGaps(s.mmap, s.scan, entry, PAGE * f, PAGE * f);
    hide Stop;
    AlignUpNotBelow(Add(s.mmap, entry, PAGE * f).value);
  }

  // ----- when an allocation yields a page -----

  /** Page number `f` counted from the first usable region lies below the end of the map, or in
      the page behind it. */
  predicate OnMap(mmap: seq<Region>, entry: nat, f: nat)
    requires entry < |mmap|
  {
    mmap[entry].base + PAGE * f < mmap[|mmap| - 1].End() + PAGE
  }

  lemma PageNumbersOnTheMap(s: State, entry: nat, f: nat)
    requires Sane(s) && f < s.scan && FirstUsable(s.mmap, 0, PAGE) == Some(entry)
    ensures PageAt(s.mmap, f).Page? <==> OnMap(s.mmap, entry, f)
    ensures PageAt(s.mmap, f) == OffMap <==> !OnMap(s.mmap, entry, f)
  {
    assert s.mmap[entry] in s.mmap;
    StopsOnTheMap(s.mmap, s.scan, s.mmap[entry].base + PAGE * f, entry);
    hide Stop, AlignUp;
  }

  lemma StopsOnTheMap(mmap: seq<Region>, scan: nat, at: nat, i: nat)
    requires Sorted(mmap) && NoWrap(mmap, scan) && i < |mmap|
    ensures Stop(mmap, at, i).Some? <==> at < mmap[|mmap| - 1].End() + PAGE
  {
    var last := |mmap| - 1;
    forall k | i <= k < |mmap|
      ensures Beyond(mmap[k], at) <==> at >= mmap[k].End() + PAGE
      ensures mmap[k].End() <= mmap[last].End()
    {
      assert mmap[k] in mmap;
    }
    var r := Stop(mmap, at, i);
    assert r.None? ==> Beyond(mmap[last], at);
  }

  /** Page number `f` lies 4096 bytes a page from the start of region `j`, rounded up, where `j` is the
      first region whose end, one page later, lies behind the same offset from the first region that is
      usable and has room for a page. */
  lemma PageInNumbers(s: State, first: nat, j: nat, f: nat)
    requires Sane(s) && f < s.scan && first <= j < |s.mmap|
    requires s.mmap[first].kind == 1 && s.mmap[first].length >= 4096
    requires forall k :: 0 <= k < first ==> s.mmap[k].kind != 1 || s.mmap[k].length < 4096
    requires s.mmap[first].base + 4096 * f < s.mmap[j].base + s.mmap[j].length + 4096
    requires forall k :: first <= k < j ==> s.mmap[first].base + 4096 * f >= s.mmap[k].base + s.mmap[k].length + 4096
    ensures var p := PageAt(s.mmap, f);
            && p.Page? && p.addr % 4096 == 0
            && s.mmap[j].base + 4096 * f <= p.addr < s.mmap[j].base + 4096 * f + 4096
  {
    hide Stop, AlignUp;
    FirstUsableInNumbers(s.mmap, first);
    NothingWraps(s.mmap, s.scan, first, 4096 * f);
    NothingWraps(s.mmap, s.scan, j, 4096 * f);
    StopInNumbers(s, s.mmap[first].base + 4096 * f, first, j);
  }

  lemma FirstUsableInNumbers(mmap: seq<Region>, first: nat)
    requires first < |mmap| && mmap[first].kind == 1 && mmap[first].length >= 4096
    requires forall k :: 0 <= k < first ==> mmap[k].kind != 1 || mmap[k].length < 4096
    ensures FirstUsable(mmap, 0, PAGE) == Some(first)
  {
    var r := FirstUsable(mmap, 0, PAGE);
    assert r.Some? ==> !(r.value < first);
  }

  lemma StopInNumbers(s: State, at: nat, first: nat, j: nat)
    requires Sane(s) && first <= j < |s.mmap| && at < s.mmap[j].base + s.mmap[j].length + 4096
    requires forall k :: first <= k < j ==> at >= s.mmap[k].base + s.mmap[k].length + 4096
    ensures Stop(s.mmap, at, first) == Some(j)
  {
    forall k | first <= k <= j
      ensures Beyond(s.mmap[k], at) <==> k < j
    {
      assert s.mmap[k] in s.mmap;
    }
    var r := Stop(s.mmap, at, first);
    hide Stop, Beyond;
    assert r.Some?;
  }

  /** What an allocation yields, from the first free page number. */
  lemma AllocOutcome(s: State)
    requires Sane(s)
    ensures AllocStep(s).1 ==
            match (FirstSet(s.bits, 0, s.scan), FirstUsable(s.mmap, 0, PAGE))
            case (Some(f), Some(entry)) =>
              if OnMap(s.mmap, entry, f) then Page(PageAt(s.mmap, f).addr) else OffMap
            case _ => Null
  {
    match (FirstSet(s.bits, 0, s.scan), FirstUsable(s.mmap, 0, PAGE))
    case (Some(f), Some(entry)) => PageNumbersOnTheMap(s, entry, f);
    case _ =>
  }

  /** The free page numbers that have a page. */
  ghost function Left(s: State): set<nat>
    requires s.scan <= |s.bits|
  {
    set f: nat | f < s.scan && s.bits[f] && PageAt(s.mmap, f).Page?
  }

  /** An allocation yields a page exactly when one is left, and uses up exactly one. */
  lemma AllocSpends(s: State)
    requires Sane(s)
    ensures AllocStep(s).1.Page? <==> Left(s) != {}
    ensures |Left(AllocStep(s).0)| == |Left(s)| - if AllocStep(s).1.Page? then 1 else 0
  {
    hide PageAt, Sorted, NoWrap;
    var first := FirstSet(s.bits, 0, s.scan);
    forall g | g in Left(s)
      ensures AllocStep(s).1.Page?
    {
      assert first.Some? && first.value <= g;
      if first.value < g {
        PagesAreSpaced(s, first.value, g);
      }
    }
    if AllocStep(s).1.Page? {
      assert first.value in Left(s);
      assert Left(AllocStep(s).0) == Left(s) - {first.value};
    } else {
      assert Left(s) == {};
      assert Left(AllocStep(s).0) <= Left(s);
    }
  }

  // ----- one step, and whole runs -----

  lemma AllocRaisesTheFloor(s: State, top: nat)
    requires Sane(s) && Above(s, top)
    ensures Sane(AllocStep(s).0)
    ensures match AllocStep(s).1
            case Page(p) => p % PAGE == 0 && top <= p && p + PAGE <= W64 && Above(AllocStep(s).0, p + PAGE)
            case _ => Above(AllocStep(s).0, top)
  {
    match FirstSet(s.bits, 0, s.scan)
    case None =>
    case Some(f) =>
      if PageAt(s.mmap, f).Page? {
        var entry := FirstUsable(s.mmap, 0, PAGE).value;
        AddKeepsGaps(s.mmap, s.scan, entry, PAGE * f, PAGE * f);
        var t := AllocStep(s).0;
        forall g | 0 <= g < t.scan && t.bits[g] && PageAt(t.mmap, g).Page?
          ensures PageAt(s.mmap, f).addr + PAGE <= PageAt(t.mmap, g).addr
        {
          PagesAreSpaced(s, f, g);
        }
      }
  }

  lemma FreeKeepsTheFloor(s: State, top: nat, addr: nat)
    requires Sane(s) && Above(s, top) && InRange(s.mmap, |s.bits|, addr)
    ensures Sane(FreeStep(s, addr)) && Above(FreeStep(s, addr), top)
  {
  }

  /** Every freed address is in range; the answer depends on the memory map alone. */
  predicate Legal(mmap: seq<Region>, size: nat, ops: seq<Op>) {
    forall op :: op in ops && op.Free? ==> InRange(mmap, size, op.addr)
  }

  /** The pages an operation sequence hands out, in order. Results that are no page are dropped;
      AllocOutcome says when an allocation yields what. */
  function Handed(s: State, ops: seq<Op>): seq<nat>
    requires |s.bits| == 8 * s.scan && Legal(s.mmap, |s.bits|, ops)
    decreases |ops|
  {
    if ops == [] then []
    else match ops[0]
      case Alloc =>
        var (t, r) := AllocStep(s);
        (if r.Page? then [r.addr] else []) + Handed(t, ops[1..])
      case Free(a) => Handed(FreeStep(s, a), ops[1..])
  }

  /** Aligned pages at or above `top`, each ending before the next begins. */
  ghost predicate Spaced(pages: seq<nat>, top: nat) {
    && (forall i :: 0 <= i < |pages| ==> top <= pages[i] && pages[i] % PAGE == 0)
    && (forall i, j :: 0 <= i < j < |pages| ==> pages[i] + PAGE <= pages[j])
  }

  lemma SpacedCons(page: nat, rest: seq<nat>, top: nat)
    requires top <= page && page % PAGE == 0 && Spaced(rest, page + PAGE)
    ensures Spaced([page] + rest, top)
  {
  }

  /** Over any run of allocations and frees no page is handed out twice, whatever was freed. */
  lemma {:induction false} RunsNeverOverlap(s: State, top: nat, ops: seq<Op>)
    requires Sane(s) && Above(s, top) && Legal(s.mmap, |s.bits|, ops)
    ensures Spaced(Handed(s, ops), top)
    decreases |ops|
  {
    if ops != [] {
      assert ops[0] in ops && forall op :: op in ops[1..] ==> op in ops;
      match ops[0]
      case Alloc =>
        AllocRaisesTheFloor(s, top);
        var (t, r) := AllocStep(s);
        if r.Page? {
          RunsNeverOverlap(t, r.addr + PAGE, ops[1..]);
          SpacedCons(r.addr, Handed(t, ops[1..]), top);
        } else {
          RunsNeverOverlap(t, top, ops[1..]);
          assert [] + Handed(t, ops[1..]) == Handed(t, ops[1..]);
        }
      case Free(a) =>
        FreeKeepsTheFloor(s, top, a);
        RunsNeverOverlap(FreeStep(s, a), top, ops[1..]);
    }
  }

  /** From boot on, pages also stay clear of the memory that holds the bitmap itself. */
  lemma PagesAvoidTheBitmap(mmap: seq<Region>, i: nat, ops: seq<Op>)
    requires Sorted(mmap) && FirstUsable(mmap, 0, 0) == Some(i) && NoWrap(mmap, mmap[i].length)
    requires Legal(Init(mmap).mmap, |Init(mmap).bits|, ops)
    ensures Spaced(Handed(Init(mmap), ops), mmap[i].End())
  {
    InitIsAbove(mmap, i);
    RunsNeverOverlap(Init(mmap), mmap[i].End(), ops);
  }

  // ----- what runs take -----

  function Final(s: State, ops: seq<Op>): (t: State)
    requires |s.bits| == 8 * s.scan && Legal(s.mmap, |s.bits|, ops)
    ensures t.mmap == s.mmap && t.scan == s.scan && |t.bits| == |s.bits|
    decreases |ops|
  {
    if ops == [] then s
    else match ops[0]
      case Alloc => Final(AllocStep(s).0, ops[1..])
      case Free(a) => Final(FreeStep(s, a), ops[1..])
  }

  /** How many frees of a run cleared the flag of a page that was still to be had. */
  ghost function Wasted(s: State, ops: seq<Op>): nat
    requires |s.bits| == 8 * s.scan && Legal(s.mmap, |s.bits|, ops)
    decreases |ops|
  {
    if ops == [] then 0
    else match ops[0]
      case Alloc => Wasted(AllocStep(s).0, ops[1..])
      case Free(a) =>
        var bit := FreedBit(s.mmap, a);
        Wasted(FreeStep(s, a), ops[1..]) + if bit.Some? && bit.value in Left(s) then 1 else 0
  }

  lemma FreeSpends(s: State, addr: nat)
    requires |s.bits| == 8 * s.scan && InRange(s.mmap, |s.bits|, addr)
    ensures var bit := FreedBit(s.mmap, addr);
            && Left(FreeStep(s, addr)) <= Left(s)
            && |Left(s)| == |Left(FreeStep(s, addr))| + if bit.Some? && bit.value in Left(s) then 1 else 0
  {
    var bit, t := FreedBit(s.mmap, addr), FreeStep(s, addr);
    if bit.Some? {
      assert Left(t) == Left(s) - {bit.value};
    }
  }

  /** Over every run of allocations and frees the pages that can be had only get fewer: each is handed
      out once, or wasted by a free that hits its flag, or still there at the end. */
  lemma {:induction false} RunsOnlyTake(s: State, ops: seq<Op>)
    requires Sane(s) && Legal(s.mmap, |s.bits|, ops)
    ensures Left(Final(s, ops)) <= Left(s)
    ensures |Left(s)| == |Handed(s, ops)| + Wasted(s, ops) + |Left(Final(s, ops))|
    decreases |ops|
  {
    if ops != [] {
      assert ops[0] in ops && forall op :: op in ops[1..] ==> op in ops;
      match ops[0]
      case Alloc =>
        AllocSpends(s);
        AllocTakes(s);
        RunsOnlyTake(AllocStep(s).0, ops[1..]);
      case Free(a) =>
        FreeSpends(s, a);
        RunsOnlyTake(FreeStep(s, a), ops[1..]);
    }
  }

  lemma AllocTakes(s: State)
    requires Sane(s)
    ensures Sane(AllocStep(s).0) && Left(AllocStep(s).0) <= Left(s)
  {
  }

  // ----- runs that leave the map -----

  /** What the allocations of a run yield. */
  function Outcomes(s: State, ops: seq<Op>): seq<Outcome>
    requires |s.bits| == 8 * s.scan && Legal(s.mmap, |s.bits|, ops)
    decreases |ops|
  {
    if ops == [] then []
    else match ops[0]
      case Alloc => [AllocStep(s).1] + Outcomes(AllocStep(s).0, ops[1..])
      case Free(a) => Outcomes(FreeStep(s, a), ops[1..])
  }

  /** Every page number the allocator scans is on the map. */
  predicate AllOnMap(s: State) {
    match FirstUsable(s.mmap, 0, PAGE)
    case None => true
    case Some(entry) => s.scan == 0 || OnMap(s.mmap, entry, s.scan - 1)
  }

  lemma AllocsStayOnTheMap(s: State)
    requires Sane(s) && AllOnMap(s)
    ensures AllocStep(s).1 != OffMap && AllOnMap(AllocStep(s).0)
  {
    AllocOutcome(s);
  }

  lemma {:induction false} RunsOnTheMap(s: State, ops: seq<Op>)
    requires Sane(s) && Legal(s.mmap, |s.bits|, ops) && AllOnMap(s)
    ensures OffMap !in Outcomes(s, ops)
    decreases |ops|
  {
    if ops != [] {
      assert ops[0] in ops && forall op :: op in ops[1..] ==> op in ops;
      match ops[0]
      case Alloc =>
        AllocsStayOnTheMap(s);
        RunsOnTheMap(AllocStep(s).0, ops[1..]);
      case Free(a) => RunsOnTheMap(FreeStep(s, a), ops[1..]);
    }
  }

  /** Allocating as often as there are page numbers left reaches the last one. */
  lemma {:induction false} RunOffTheMap(s: State, k: nat)
    requires Sane(s) && k < s.scan && !AllOnMap(s)
    requires forall f :: 0 <= f < s.scan ==> (s.bits[f] <==> k <= f)
    ensures Legal(s.mmap, |s.bits|, seq(s.scan - k, _ => Alloc))
    ensures OffMap in Outcomes(s, seq(s.scan - k, _ => Alloc))
    decreases s.scan - k
  {
    hide PageAt, Sorted, NoWrap, OnMap;
    var ops := seq(s.scan - k, _ => Alloc);
    AllocOutcome(s);
    assert s.bits[k] && FirstSet(s.bits, 0, s.scan) == Some(k);
    if k + 1 < s.scan {
      assert ops[1..] == seq(s.scan - (k + 1), _ => Alloc);
      RunOffTheMap(AllocStep(s).0, k + 1);
    }
  }

  /** From boot, no run ever gets an address from behind the map exactly when the last page number
      the bitmap has is on the map. */
  lemma RunsStayOnTheMap(mmap: seq<Region>, i: nat)
    requires Sorted(mmap) && FirstUsable(mmap, 0, 0) == Some(i) && NoWrap(mmap, mmap[i].length)
    ensures var s := Init(mmap);
            (forall ops | Legal(s.mmap, |s.bits|, ops) :: OffMap !in Outcomes(s, ops)) <==> AllOnMap(s)
  {
    var s := Init(mmap);
    InitIsAbove(mmap, i);
    if AllOnMap(s) {
      forall ops | Legal(s.mmap, |s.bits|, ops)
        ensures OffMap !in Outcomes(s, ops)
      {
        RunsOnTheMap(s, ops);
      }
    } else {
      RunOffTheMap(s, 0);
    }
  }

  /** A 16-byte first region makes a bitmap of 16 page numbers over a region of one page: the third
      allocation gets an address from behind the map. */
  lemma ThirdPageIsOffTheMap()
    ensures var mmap := [Region(0x1000, 16, USABLE), Region(0x10000, 0x1000, USABLE)];
            PageAt(Init(mmap).mmap, 1) == Page(0x11000) && PageAt(Init(mmap).mmap, 2) == OffMap && Init(mmap).scan == 16
  {
    var mmap := [Region(0x1000, 16, USABLE), Region(0x10000, 0x1000, USABLE)];
    var s := Init(mmap);
    assert s.mmap == [Region(0x1010, 0, USABLE), Region(0x10000, 0x1000, USABLE)];
    assert FirstUsable(s.mmap, 0, PAGE) == FirstUsable(s.mmap, 1, PAGE) == Some(1);
    assert Stop(s.mmap, 0x11000, 1) == Some(1) && Stop(s.mmap, 0x12000, 1) == Stop(s.mmap, 0x12000, 2) == None;
  }

  // ----- where pages land -----

  /** The region pmm_add charges page number `f` to. */
  function Charged(mmap: seq<Region>, f: nat): (r: Option<nat>)
    ensures PageAt(mmap, f).Page? ==> r.Some? && r.value < |mmap| &&
                                      PageAt(mmap, f).addr == AlignUp(U64(mmap[r.value].base + PAGE * f))
  {
    match FirstUsable(mmap, 0, PAGE)
    case None => None
    case Some(entry) => Stop(mmap, U64(mmap[entry].base + PAGE * f), entry)
  }

  /** The first region from `i` on that ends behind `at`: on a sorted map the only one that can
      hold what starts there. */
  function Reached(mmap: seq<Region>, i: nat, at: nat): (r: Option<nat>)
    requires i <= |mmap|
    ensures r.Some? ==> i <= r.value < |mmap| && at < mmap[r.value].End()
    ensures forall k :: i <= k < (if r.Some? then r.value else |mmap|) ==> mmap[k].End() <= at
    decreases |mmap| - i
  {
    if i == |mmap| then None
    else if at < mmap[i].End() then Some(i)
    else Reached(mmap, i + 1, at)
  }

  /** The page lies in usable memory. */
  ghost predicate InUsable(mmap: seq<Region>, page: nat) {
    exists r :: r in mmap && r.kind == USABLE && r.base <= page && page + PAGE <= r.End()
  }

  /** Where page number `f` lands: pmm_add puts it `PAGE * f` bytes behind the start of the region
      it is charged to, which need be neither usable nor that long. The page is usable memory
      exactly when the region reached from there is usable, starts no later, and is long enough. */
  lemma PageIsUsable(mmap: seq<Region>, scan: nat, f: nat)
    requires Sorted(mmap) && NoWrap(mmap, scan) && f < scan && PageAt(mmap, f).Page?
    ensures var i := Charged(mmap, f).value;
            var at := AlignUp(mmap[i].base) + PAGE * f;
            InUsable(mmap, PageAt(mmap, f).addr) <==>
            match Reached(mmap, i, at)
            case None => false
            case Some(j) =>
              mmap[j].kind == USABLE && mmap[j].base <= at && at - mmap[j].base + PAGE <= mmap[j].length
  {
    hide *;
    var i := ChargedPage(mmap, scan, f);
    HeldByReached(mmap, i, AlignUp(mmap[i].base) + PAGE * f);
  }

  lemma ChargedPage(mmap: seq<Region>, scan: nat, f: nat) returns (i: nat)
    requires NoWrap(mmap, scan) && f < scan && PageAt(mmap, f).Page?
    ensures Charged(mmap, f) == Some(i) && i < |mmap|
    ensures PageAt(mmap, f).addr == AlignUp(mmap[i].base) + PAGE * f >= mmap[i].base
  {
    i := Charged(mmap, f).value;
    hide Charged, PageAt, AlignUp;
    assert mmap[i] in mmap;
    AlignUpAdds(mmap[i].base, f);
    AlignUpNotBelow(mmap[i].base);
  }

  lemma HeldByReached(mmap: seq<Region>, i: nat, at: nat)
    requires Sorted(mmap) && i < |mmap| && mmap[i].base <= at
    ensures InUsable(mmap, at) <==>
            match Reached(mmap, i, at)
            case None => false
            case Some(j) => mmap[j].kind == USABLE && mmap[j].base <= at && at - mmap[j].base + PAGE <= mmap[j].length
  {
    var j := Reached(mmap, i, at);
    if InUsable(mmap, at) {
      var r :| r in mmap && r.kind == USABLE && r.base <= at && at + PAGE <= r.End();
      var k :| 0 <= k < |mmap| && mmap[k] == r;
      assert i <= k && j == Some(k);
    } else if j.Some? {
      assert mmap[j.value] in mmap;
    }
  }

  /** Reserved memory is handed out: page number 2 of this map lies in its reserved region. */
  lemma PageInAReservedRegion()
    ensures var mmap := [Region(0x1000, 0, USABLE), Region(0x10000, 0x1000, USABLE), Region(0x11000, 0x8000, 2)];
            PageAt(mmap, 2) == Page(0x13000) && !InUsable(mmap, 0x13000)
  {
    var mmap := [Region(0x1000, 0, USABLE), Region(0x10000, 0x1000, USABLE), Region(0x11000, 0x8000, 2)];
    assert FirstUsable(mmap, 0, PAGE) == FirstUsable(mmap, 1, PAGE) == Some(1);
    assert Stop(mmap, 0x12000, 1) == Stop(mmap, 0x12000, 2) == Some(2);
  }

  /** A one-page region yields its page and then the page behind it. */
  lemma SecondPageOfAOnePageRegion()
    ensures var mmap := [Region(0x1000, 0, USABLE), Region(0x10000, 0x1000, USABLE)];
            PageAt(mmap, 0) == Page(0x10000) && PageAt(mmap, 1) == Page(0x11000) && mmap[1].End() == 0x11000
  {
    var mmap := [Region(0x1000, 0, USABLE), Region(0x10000, 0x1000, USABLE)];
    assert FirstUsable(mmap, 0, PAGE) == FirstUsable(mmap, 1, PAGE) == Some(1);
    assert Stop(mmap, 0x11000, 1) == Some(1);
  }

  // ----- the allocator as the kernel runs it -----

  /** pmm_init's search: the first usable region, or the end of the map. */
  method FindUsable(mmap: seq<Region>) returns (i: nat)
    ensures i <= |mmap| && FirstUsable(mmap, 0, 0) == if i < |mmap| then Some(i) else None
  {
    i := 0;
    while i < |mmap|
      invariant i <= |mmap| && FirstUsable(mmap, 0, 0) == FirstUsable(mmap, i, 0)
    {
      if mmap[i].kind == USABLE {
        break;
      }
      i := i + 1;
    }
  }

  class PageAllocator {
    var bmp: PageBitmap
    var mmap: seq<Region>
    ghost var top: nat  // every page handed out so far ends at or below `top`

    ghost function Now(): State
      reads this, bmp.buf
    {
      State(bmp.State(), bmp.size, mmap)
    }

    ghost predicate Valid()
      reads this, bmp.buf
    {
      bmp.Valid() && Sane(Now()) && Above(Now(), top)
    }

    /** `storage` is the memory of the first usable region, which becomes the bitmap. */
    constructor (loader: seq<Region>, storage: array<bv8>)
      requires var first := FirstUsable(loader, 0, 0);
               storage.Length == (if first.Some? then loader[first.value].length else 0) < 0x8000_0000
      requires Sorted(loader) && NoWrap(loader, storage.Length)
      modifies storage
      ensures Valid() && Now() == Init(loader) && bmp.buf == storage
      ensures FirstUsable(loader, 0, 0).Some? ==> top == loader[FirstUsable(loader, 0, 0).value].End()
    {
      hide Above, Sane, Sorted, NoWrap, FirstUsable, Flags, Has;
      mmap := loader;
      top := 0;
      bmp := new PageBitmap(storage);
      var i := FindUsable(loader);
      if i < |loader| {
        InitIsAbove(loader, i);
        mmap := loader[i := Region(loader[i].base + loader[i].length, 0, loader[i].kind)];
        top := loader[i].End();
      } else {
        WithoutUsableMemory(loader);
      }
      new;
    }

    /** Walks the regions until the address fits; None stands for running off the map. */
    method PmmAdd(entry: nat, addr: nat) returns (r: Option<nat>)
      requires entry < |mmap|
      ensures r == Add(mmap, entry, addr)
    {
      hide U64;
      var offs := mmap[entry].base;
      var i := entry;
      while i < |mmap| && U64(offs + addr) >= U64(U64(mmap[i].base + mmap[i].length) + PAGE)
        invariant entry <= i <= |mmap|
        invariant Stop(mmap, U64(offs + addr), entry) == Stop(mmap, U64(offs + addr), i)
      {
        i := i + 1;
      }
      return if i < |mmap| then Some(U64(mmap[i].base + addr)) else None;
    }

    /** pmm_alloc, before rounding: the raw address (0 for NULL) and how the request went. */
    method AllocRaw() returns (raw: nat, ghost r: Outcome)
      requires Valid()
      modifies bmp.buf
      ensures Now() == AllocStep(old(Now())).0
      ensures r == AllocStep(old(Now())).1
      ensures r.Page? ==> r.addr == AlignUp(raw)
      ensures r.Null? ==> raw == 0
    {
      var free := bmp.FindFree();
      if free != -1 {
        var i := 0;
        while i < |mmap|
          invariant i <= |mmap|
          invariant FirstUsable(mmap, 0, PAGE) == FirstUsable(mmap, i, PAGE)
        {
          if mmap[i].kind == USABLE && mmap[i].length >= PAGE {
            bmp.Set(free, false);
            var at := PmmAdd(i, PAGE * free);
            if at.Some? {
              return at.value, Page(AlignUp(at.value));
            }
            var garbage: nat := *;
            return garbage, OffMap;
          }
          i := i + 1;
        }
      }
      return 0, Null;
    }

    /** The page, and as a ghost how the request went; the address is 0 for NULL. */
    method AllocPage() returns (addr: nat, ghost r: Outcome)
      requires Valid()
      modifies this`top, bmp.buf
      ensures Valid()
      ensures Now() == AllocStep(old(Now())).0
      ensures r == AllocStep(old(Now())).1
      ensures addr % PAGE == 0
      ensures match r
              case Page(p) => addr == p && old(top) <= p && top == p + PAGE <= W64
              case Null => addr == 0 && top == old(top)
              case OffMap => top == old(top)
    {
      assert AlignUp(0) == 0;
      hide AllocStep, Above, Sane, AlignUp, Flags, FirstSet, PageAt, Has;
      AllocRaisesTheFloor(Now(), top);
      var raw;
      raw, r := AllocRaw();
      addr := AlignUp(raw);
      if r.Page? {
        top := addr + PAGE;
      }
    }

    method FindHolder(addr: nat) returns (entry: int)
      ensures -1 <= entry < |mmap|
      ensures Holder(mmap, addr, |mmap|) == if entry < 0 then None else Some(entry)
    {
      entry := -1;
      for i := 0 to |mmap|
        invariant -1 <= entry < |mmap|
        invariant Holder(mmap, addr, i) == if entry < 0 then None else Some(entry)
      {
        if mmap[i].kind == USABLE {
          var end := U64(mmap[i].base + mmap[i].length);
          if addr >= mmap[i].base && addr <= end {
            entry := i;
          }
        }
      }
    }

    /** pmm_free. `inside` is false where the code writes behind the bitmap's storage; what that
        destroys is not part of this model. */
    method Free(addr: nat) returns (ghost inside: bool)
      requires Valid()
      modifies bmp.buf
      ensures inside <==> InRange(mmap, 8 * bmp.size, addr)
      ensures inside ==> Valid() && Now() == FreeStep(old(Now()), addr)
    {
      var entry := FindHolder(addr);
      inside := entry < 0 || addr - mmap[entry].base < 8 * bmp.size;
      if inside {
        FreeKeepsTheFloor(Now(), top, addr);
      }
      if entry >= 0 && addr - mmap[entry].base < 8 * bmp.size {
        bmp.Set(addr - mmap[entry].base, false);
      }
    }
  }
}
