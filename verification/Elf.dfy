/** The static ELF64 loader: which pages a load maps, and to which frames. */
module Elf {
  import opened Arith
  import opened Paging
  import opened Cost
  import opened Vmm

  const PT_LOAD: nat := 1
  const MAGIC: seq<nat> := [0x7f, 0x45, 0x4c, 0x46]
  const EI_CLASS: nat := 4
  const ELFCLASS_64: nat := 2

  datatype Phdr = Phdr(kind: nat, vaddr: nat, memsz: nat)

  datatype Header = Header(ident: seq<nat>, entry: nat, phdrs: seq<Phdr>)

  /** `entry` stays unset when no program header is non-empty. */
  datatype Stat = Stat(loaded: bool, entry: Option<nat>)

  predicate Verify(ident: seq<nat>)
    requires |ident| == 16
  {
    ident[..4] == MAGIC && ident[EI_CLASS] == ELFCLASS_64
  }

  function Start(ph: Phdr): nat {
    ph.vaddr - ph.vaddr % PAGE
  }

  /** The rounded size in bytes; the loader passes it on as a number of pages. */
  function Length(ph: Phdr): nat {
    U64(ph.memsz + ph.vaddr % PAGE + (PAGE - 1)) / PAGE * PAGE
  }

  predicate Loads(ph: Phdr) {
    ph.memsz != 0 && ph.kind == PT_LOAD
  }

  /** The size survives rounding up in 64 bits. */
  predicate Fits(ph: Phdr) {
    ph.memsz + ph.vaddr % PAGE + PAGE <= W64
  }

  /** A size that survives rounding is rounded up to whole pages, in bytes. */
  lemma LengthInNumbers(ph: Phdr)
    requires Fits(ph)
    ensures Length(ph) % 4096 == 0
    ensures ph.memsz + ph.vaddr % 4096 <= Length(ph) < ph.memsz + ph.vaddr % 4096 + 4096
  {
  }

  // ----- the pages a load has mapped -----

  /** Page number to frame, for every page mapped so far. */
  type Loaded = map<nat, nat>

  /** Each page has a user mapping to its own frame; pages outside are as they were in `mem`. */
  ghost predicate Shows(mem: Memory, mem': Memory, spaces: set<nat>, root: nat, loaded: Loaded) {
    forall r, v {:trigger Walk(mem', r, v)} :: r in spaces ==>
      Walk(mem', r, v) ==
      if r == root && PageOf(v) in loaded then Some(loaded[PageOf(v)] + 7) else Walk(mem, r, v)
  }

  ghost predicate Alone(loaded: Loaded, p: nat, q: nat)
    requires p in loaded && q in loaded
  {
    loaded[p] == loaded[q] ==> p == q
  }

  ghost predicate Clear(loaded: Loaded, p: nat, tables: map<Node, nat>, floor: nat, top: nat)
    requires p in loaded
  {
    floor <= loaded[p] && loaded[p] + PAGE <= top && forall n :: n in tables ==> tables[n] != loaded[p]
  }

  /** No two pages share a frame, and no frame is a page table or older than the load. */
  ghost predicate Isolated(loaded: Loaded, tables: map<Node, nat>, floor: nat, top: nat) {
    && (forall p, q {:trigger Alone(loaded, p, q)} :: p in loaded && q in loaded ==> Alone(loaded, p, q))
    && (forall p {:trigger Clear(loaded, p, tables, floor, top)} ::
          p in loaded ==> Clear(loaded, p, tables, floor, top))
  }

  function Touched(base: nat, n: nat): (pages: set<nat>)
    ensures forall p :: p in pages <==> Hit(base, n, p).Some?
  {
    set i | 0 <= i < n :: PageOf(U64(base + i * PAGE))
  }

  /** The range wins over what was loaded before. */
  function Over(loaded: Loaded, base: nat, frames: seq<nat>): (l: Loaded)
    ensures forall p {:trigger l[p]} {:trigger p in l} :: p in l <==> p in loaded || Hit(base, |frames|, p).Some?
    ensures forall p {:trigger l[p]} :: p in l ==>
              l[p] == if Hit(base, |frames|, p).Some? then frames[Hit(base, |frames|, p).value] else loaded[p]
  {
    loaded + map p | p in Touched(base, |frames|) :: frames[Hit(base, |frames|, p).value]
  }

  lemma ShowsRange(mem: Memory, mem1: Memory, mem2: Memory, spaces: set<nat>, root: nat, loaded: Loaded, base: nat,
                   frames: seq<nat>)
    requires Shows(mem, mem1, spaces, root, loaded)
    requires MapsRange(mem1, mem2, spaces, root, base, Entries(frames, USER_ACCESS))
    ensures Shows(mem, mem2, spaces, root, Over(loaded, base, frames))
  {
    hide PageOf, U64, Walk, Hit, Touched, Over, Entries;
    forall r, v | r in spaces
      ensures var l := Over(loaded, base, frames);
              Walk(mem2, r, v) ==
              if r == root && PageOf(v) in l then Some(l[PageOf(v)] + 7) else Walk(mem, r, v)
    {
      assert Walk(mem1, r, v) ==
             if r == root && PageOf(v) in loaded then Some(loaded[PageOf(v)] + 7) else Walk(mem, r, v);
    }
  }

  lemma IsolatedRange(loaded: Loaded, tables1: map<Node, nat>, floor: nat, top1: nat, base: nat, frames: seq<nat>,
                      tables2: map<Node, nat>, top2: nat)
    requires Isolated(loaded, tables1, floor, top1) && floor <= top1 <= top2
    requires Grows(tables1, tables2, top1) && OwnFrames(frames, tables2, top1, top2)
    ensures Isolated(Over(loaded, base, frames), tables2, floor, top2)
  {
    hide Over, Hit;
    var at := Sources(loaded, base, frames);
    var l := Over(loaded, base, frames);
    forall p, q | p in l && q in l
      ensures Alone(l, p, q)
    {
      AloneOver(loaded, l, at, frames, tables1, floor, top1, tables2, top2, p, q);
    }
    forall p | p in l
      ensures Clear(l, p, tables2, floor, top2)
    {
      ClearOver(loaded, l, at, frames, tables1, floor, top1, tables2, top2, p);
    }
  }

  lemma Sources(loaded: Loaded, base: nat, frames: seq<nat>) returns (at: map<nat, nat>)
    ensures forall p :: p in Over(loaded, base, frames) ==> ComesFrom(loaded, Over(loaded, base, frames), at, frames, p)
    ensures forall p, q :: p in at && q in at && at[p] == at[q] ==> p == q
  {
    hide PageOf, U64;
    at := map p | p in Touched(base, |frames|) :: Hit(base, |frames|, p).value;
  }

  /** Page `p` of `l` comes from the frame at index `at[p]`, or else from `loaded`. */
  ghost predicate ComesFrom(loaded: Loaded, l: Loaded, at: map<nat, nat>, frames: seq<nat>, p: nat) {
    p in l && if p in at then at[p] < |frames| && l[p] == frames[at[p]] else p in loaded && l[p] == loaded[p]
  }

  lemma AloneOver(loaded: Loaded, l: Loaded, at: map<nat, nat>, frames: seq<nat>, tables1: map<Node, nat>, floor: nat,
                  top1: nat, tables2: map<Node, nat>, top2: nat, p: nat, q: nat)
    requires Isolated(loaded, tables1, floor, top1) && OwnFrames(frames, tables2, top1, top2)
    requires ComesFrom(loaded, l, at, frames, p) && ComesFrom(loaded, l, at, frames, q)
    requires p in at && q in at && at[p] == at[q] ==> p == q
    ensures Alone(l, p, q)
  {
    if p !in at && q !in at {
      assert Alone(loaded, p, q);
    } else if p !in at {
      assert Clear(loaded, p, tables1, floor, top1);
    } else if q !in at {
      assert Clear(loaded, q, tables1, floor, top1);
    }
  }

  lemma ClearOver(loaded: Loaded, l: Loaded, at: map<nat, nat>, frames: seq<nat>, tables1: map<Node, nat>, floor: nat,
                  top1: nat, tables2: map<Node, nat>, top2: nat, p: nat)
    requires Isolated(loaded, tables1, floor, top1) && OwnFrames(frames, tables2, top1, top2)
    requires Grows(tables1, tables2, top1) && floor <= top1 <= top2
    requires ComesFrom(loaded, l, at, frames, p)
    ensures Clear(l, p, tables2, floor, top2)
  {
    if p !in at {
      assert Clear(loaded, p, tables1, floor, top1);
    }
  }

  /** The page of the segment's byte `b` is one of those the loader asks for. */
  predicate Touches(ph: Phdr, b: nat) {
    Hit(Start(ph), Length(ph), PageOf(U64(ph.vaddr + b))).Some?
  }

  /** The loader asks for the pages of all bytes of a segment exactly when the size survives rounding
      up: otherwise it asks for no more than 4096 pages. */
  lemma BytesAreTouched(ph: Phdr)
    requires ph.memsz < W64
    ensures Fits(ph) <==> forall b: nat :: b < ph.memsz ==> Touches(ph, b)
  {
    hide Touches;
    if Fits(ph) {
      forall b: nat | b < ph.memsz
        ensures Touches(ph, b)
      {
        ByteIsTouched(ph, b);
      }
    } else {
      ByteIsMissed(ph);
    }
  }

  lemma QuotientIsNoLarger(x: nat)
    ensures x / PAGE <= x
  {
  }

  lemma ByteIsTouched(ph: Phdr, b: nat)
    requires Fits(ph) && b < ph.memsz
    ensures Touches(ph, b)
  {
    hide U64, PageOf;
    var m := ph.vaddr % PAGE;
    var i, x := (m + b) / PAGE, (m + b) % PAGE;
    var q := ph.vaddr / PAGE + i;
    DivMod(ph.vaddr, PAGE);
    DivMod(m + b, PAGE);
    assert ph.vaddr + b == q * PAGE + x && Start(ph) + i * PAGE == q * PAGE;
    SamePageWithin(q, x);
    QuotientIsNoLarger(m + b);
    LengthCovers(ph.memsz + m);
  }

  lemma ByteIsMissed(ph: Phdr)
    requires ph.memsz < W64 && !Fits(ph)
    ensures Length(ph) <= PAGE && Length(ph) * PAGE < ph.memsz && !Touches(ph, Length(ph) * PAGE)
  {
    var n := Length(ph);
    OverflowedLength(ph.memsz + ph.vaddr % PAGE);
    PageBehind(ph, n);
    hide PageOf, Length, Start, U64;
    NextPageIsNoHit(Start(ph), n);
  }

  lemma PageBehind(ph: Phdr, n: nat)
    ensures PageOf(U64(ph.vaddr + n * PAGE)) == PageOf(U64(Start(ph) + n * PAGE))
  {
    var q, m := ph.vaddr / PAGE, ph.vaddr % PAGE;
    assert ph.vaddr + n * PAGE == (q + n) * PAGE + m && Start(ph) + n * PAGE == (q + n) * PAGE;
    SamePageWithin(q + n, m);
  }

  lemma OverflowedLength(size: nat)
    requires W64 < size + PAGE && size < W64 + PAGE
    ensures U64(size + (PAGE - 1)) / PAGE * PAGE <= PAGE
  {
    assert U64(size + (PAGE - 1)) == size + (PAGE - 1) - W64;
  }

  lemma LengthCovers(size: nat)
    requires size + PAGE <= W64
    ensures size <= U64(size + (PAGE - 1)) / PAGE * PAGE
  {
  }

  lemma SamePageWithin(q: nat, x: nat)
    requires x < PAGE
    ensures PageOf(U64(q * PAGE + x)) == PageOf(U64(q * PAGE))
  {
    var m, r := q / 0x10_0000_0000_0000, q % 0x10_0000_0000_0000;
    assert q * PAGE == m * W64 + r * PAGE;
    ModDrops(r * PAGE, m, W64);
    ModDrops(r * PAGE + x, m, W64);
    assert (r * PAGE + x) / PAGE == r;
  }

  // ----- the loader -----

  /** One of the first `n` segments has page `p`. */
  ghost predicate Asked(phdrs: seq<Phdr>, n: nat, p: nat)
    requires n <= |phdrs|
  {
    exists k :: 0 <= k < n && Loads(phdrs[k]) && Hit(Start(phdrs[k]), Length(phdrs[k]), p).Some?
  }

  /** The tables the first `n` segments need ... */
  function LoadPaths(phdrs: seq<Phdr>, n: nat): set<seq<nat>>
    requires n <= |phdrs|
  {
    if n == 0 then {}
    else
      var ph := phdrs[n - 1];
      LoadPaths(phdrs, n - 1) + if Loads(ph) then PathsOf(Start(ph), Length(ph)) else {}
  }

  /** ... and the frames: one for each byte of their rounded sizes. */
  function LoadFrames(phdrs: seq<Phdr>, n: nat): nat
    requires n <= |phdrs|
  {
    if n == 0 then 0 else LoadFrames(phdrs, n - 1) + if Loads(phdrs[n - 1]) then Length(phdrs[n - 1]) else 0
  }

  /** The first `n` segments are loaded: `loaded` has exactly their pages, each on a frame that no
      other page and no table has, and nothing else has changed. This succeeds exactly when the
      allocator has the frames it takes. */
  ghost predicate LoadsSegments(a: Snapshot, b: Snapshot, root: nat, phdrs: seq<Phdr>, n: nat, loaded: Loaded)
    requires n <= |phdrs|
  {
    && Takes(a.funds, b.funds, root, LoadPaths(phdrs, n), LoadFrames(phdrs, n))
    && (forall p :: p in loaded <==> Asked(phdrs, n, p))
    && (b.funds.good ==>
          && Grows(a.tables, b.tables, a.top)
          && Shows(a.mem, b.mem, Spaces(a.tables), root, loaded) && Isolated(loaded, b.tables, a.top, b.top))
  }

  lemma LoadsNone(a: Snapshot, root: nat, phdrs: seq<Phdr>)
    ensures LoadsSegments(a, a, root, phdrs, 0, map[])
  {
    TakesNothing(a.funds, root);
  }

  lemma SkipsSegment(a: Snapshot, b: Snapshot, root: nat, phdrs: seq<Phdr>, n: nat, loaded: Loaded)
    requires n < |phdrs| && !Loads(phdrs[n]) && LoadsSegments(a, b, root, phdrs, n, loaded)
    ensures LoadsSegments(a, b, root, phdrs, n + 1, loaded)
  {
    hide Takes, Shows, Isolated, Hit, Start, Length;
    assert LoadPaths(phdrs, n + 1) == LoadPaths(phdrs, n);
    assert forall p :: Asked(phdrs, n + 1, p) <==> Asked(phdrs, n, p);
  }

  lemma LoadsOneMore(a: Snapshot, b: Snapshot, c: Snapshot, root: nat, phdrs: seq<Phdr>, n: nat, loaded: Loaded,
                     frames: seq<nat>)
    requires n < |phdrs| && Loads(phdrs[n]) && |frames| == Length(phdrs[n])
    requires LoadsSegments(a, b, root, phdrs, n, loaded) && a.top <= b.top <= c.top
    requires MapsFrames(b, c, root, Start(phdrs[n]), USER_ACCESS, frames) && (c.funds.good ==> b.funds.good)
    ensures LoadsSegments(a, c, root, phdrs, n + 1, Over(loaded, Start(phdrs[n]), frames))
  {
    hide Takes, Shows, Isolated, Hit, Start, Length, MapsRange, OwnFrames;
    var base := Start(phdrs[n]);
    TakesMore(a.funds, b.funds, c.funds, root, LoadPaths(phdrs, n), LoadFrames(phdrs, n),
              PathsOf(base, |frames|), |frames|);
    forall p
      ensures p in Over(loaded, base, frames) <==> Asked(phdrs, n + 1, p)
    {
      assert Asked(phdrs, n + 1, p) <==> Asked(phdrs, n, p) || Hit(base, Length(phdrs[n]), p).Some?;
    }
    if c.funds.good {
      GrowthKeepsSpaces(a.tables, b.tables, a.top);
      ShowsRange(a.mem, b.mem, c.mem, Spaces(a.tables), root, loaded, base, frames);
      IsolatedRange(loaded, b.tables, a.top, b.top, base, frames, c.tables, c.top);
    }
  }

  /** Loading one segment whose size is `n` bytes, rounded up to whole pages, maps the `n` pages from its
      start on, where the address space wraps, and takes `n` frames beside those for tables. */
  lemma OneSegmentInNumbers(a: Snapshot, b: Snapshot, root: nat, ph: Phdr, loaded: Loaded, n: nat)
    requires ph.memsz > 0 && ph.kind == 1 && Fits(ph)
    requires n % 4096 == 0 && ph.memsz + ph.vaddr % 4096 <= n < ph.memsz + ph.vaddr % 4096 + 4096
    requires LoadsSegments(a, b, root, [ph], 1, loaded)
    ensures forall p :: p in loaded <==> exists i {:trigger PageAfter(ph, i)} :: 0 <= i < n && p == PageAfter(ph, i)
    ensures b.funds.good ==>
              b.funds.supply == a.funds.supply - n - |Unbuilt(a.funds.keys, root, PathsOf(Start(ph), n))|
  {
    hide Shows, Isolated, Hit, PathsOf, Unbuilt, Length, Start, PageAfter, Grows;
    LengthInNumbers(ph);
    WholePagesAreOne(Length(ph), n, ph.memsz + ph.vaddr % 4096);
    OneSegmentTakes(root, ph);
    forall p
      ensures p in loaded <==> exists i {:trigger PageAfter(ph, i)} :: 0 <= i < n && p == PageAfter(ph, i)
    {
      HitInNumbers(ph, n, p);
      AskedOfOne(ph, p);
    }
  }

  /** The page number `i` pages behind a segment's start. */
  function PageAfter(ph: Phdr, i: nat): nat {
    (ph.vaddr / 4096 + i) % 0x10_0000_0000
  }

  lemma WholePagesAreOne(m: nat, n: nat, size: nat)
    requires m % 4096 == 0 && n % 4096 == 0 && size <= m < size + 4096 && size <= n < size + 4096
    ensures m == n
  {
  }

  lemma OneSegmentTakes(root: nat, ph: Phdr)
    requires Loads(ph)
    ensures LoadPaths([ph], 1) == PathsOf(Start(ph), Length(ph)) && LoadFrames([ph], 1) == Length(ph)
  {
    hide PathsOf, Length, Start;
    assert LoadPaths([ph], 0) == {} && LoadFrames([ph], 0) == 0;
  }

  lemma AskedOfOne(ph: Phdr, p: nat)
    requires Loads(ph)
    ensures Asked([ph], 1, p) <==> Hit(Start(ph), Length(ph), p).Some?
  {
    hide Hit, Length, Start;
    assert [ph][0] == ph;
  }

  lemma HitInNumbers(ph: Phdr, n: nat, p: nat)
    ensures Hit(Start(ph), n, p).Some? <==> exists i {:trigger PageAfter(ph, i)} :: 0 <= i < n && p == PageAfter(ph, i)
  {
    hide PageOf, U64, Start, PageAfter;
    var r := Hit(Start(ph), n, p);
    if r.Some? {
      PageInNumbers(ph, r.value);
    }
    forall i | 0 <= i < n && p == PageAfter(ph, i)
      ensures r.Some?
    {
      PageInNumbers(ph, i);
    }
  }

  lemma PageInNumbers(ph: Phdr, i: nat)
    ensures PageOf(U64(Start(ph) + i * PAGE)) == PageAfter(ph, i)
  {
    hide PageOf, U64, Start, PageAfter;
    PageOfOffset(Start(ph), i);
    StartsOnPage(ph, i);
  }

  lemma StartsOnPage(ph: Phdr, i: nat)
    ensures (Start(ph) / PAGE + i) % PAGES_48 == PageAfter(ph, i)
  {
    DivMod(ph.vaddr, PAGE);
    Quotient(ph.vaddr / PAGE, 0, PAGE);
  }

  /** Every byte of a segment whose size survives rounding up is on a loaded page. */
  ghost predicate Covered(phdrs: seq<Phdr>, loaded: Loaded) {
    forall k, b :: 0 <= k < |phdrs| && Loads(phdrs[k]) && Fits(phdrs[k]) && 0 <= b < phdrs[k].memsz ==>
      HoldsByte(loaded, phdrs[k], b)
  }

  predicate HoldsByte(loaded: Loaded, ph: Phdr, b: nat) {
    PageOf(U64(ph.vaddr + b)) in loaded
  }

  lemma AskedBytesAreCovered(phdrs: seq<Phdr>, loaded: Loaded)
    requires forall p :: Asked(phdrs, |phdrs|, p) ==> p in loaded
    ensures Covered(phdrs, loaded)
  {
    forall k, b | 0 <= k < |phdrs| && Loads(phdrs[k]) && Fits(phdrs[k]) && 0 <= b < phdrs[k].memsz
      ensures HoldsByte(loaded, phdrs[k], b)
    {
      ByteIsTouched(phdrs[k], b);
      assert Touches(phdrs[k], b);
      hide Hit, PageOf, Start, Length;
      assert Asked(phdrs, |phdrs|, PageOf(U64(phdrs[k].vaddr + b)));
    }
  }

  lemma LoadedIsCovered(a: Snapshot, b: Snapshot, root: nat, phdrs: seq<Phdr>, loaded: Loaded)
    requires LoadsSegments(a, b, root, phdrs, |phdrs|, loaded)
    ensures Covered(phdrs, loaded)
  {
    AskedBytesAreCovered(phdrs, loaded);
  }

  /** elf_load's mapping work, which a wrong header prevents altogether. */
  method Load(pt: PageTables, root: nat, h: Header) returns (st: Stat, ghost loaded: Loaded)
    requires pt.Valid() && |h.ident| == 16
    requires pt.good ==> Node(root, []) in pt.tables
    modifies pt, pt.pmm`top, pt.pmm.bmp.buf
    ensures pt.Valid()
    ensures st.loaded <==>
            h.ident[0] == 0x7f && h.ident[1] == 0x45 && h.ident[2] == 0x4c && h.ident[3] == 0x46 && h.ident[4] == 2
    ensures st.loaded ==> st.entry == if exists ph :: ph in h.phdrs && ph.memsz != 0 then Some(h.entry) else None
    ensures LoadsSegments(old(pt.Now()), pt.Now(), root, h.phdrs, if st.loaded then |h.phdrs| else 0, loaded)
    ensures st.loaded ==> Covered(h.phdrs, loaded)
  {
    hide LoadsSegments, Pmm.Left, Tree;
    loaded := map[];
    LoadsNone(pt.Now(), root, h.phdrs);
    if !Verify(h.ident) {
      return Stat(false, None), loaded;
    }
    var entry := None;
    var i := 0;
    while i < |h.phdrs|
      invariant i <= |h.phdrs|
      invariant pt.Valid() && (pt.good ==> Node(root, []) in pt.tables) && old(pt.pmm.top) <= pt.pmm.top
      invariant entry == if exists ph :: ph in h.phdrs[..i] && ph.memsz != 0 then Some(h.entry) else None
      invariant LoadsSegments(old(pt.Now()), pt.Now(), root, h.phdrs, i, loaded)
    {
      var ph := h.phdrs[i];
      assert h.phdrs[..i + 1] == h.phdrs[..i] + [ph];
      if ph.memsz != 0 {
        entry := Some(h.entry);
      }
      if ph.memsz != 0 && ph.kind == PT_LOAD {
        loaded := LoadSegment(pt, root, h.phdrs, i, loaded, old(pt.Now()));
      } else {
        SkipsSegment(old(pt.Now()), pt.Now(), root, h.phdrs, i, loaded);
      }
      i := i + 1;
    }
    assert h.phdrs[..i] == h.phdrs;
    st := Stat(true, entry);
    LoadedIsCovered(old(pt.Now()), pt.Now(), root, h.phdrs, loaded);
  }

  /** One program header: its pages are asked for, and win over those loaded before. */
  method LoadSegment(pt: PageTables, root: nat, phdrs: seq<Phdr>, i: nat, ghost loaded: Loaded, ghost start: Snapshot)
    returns (ghost more: Loaded)
    requires pt.Valid() && i < |phdrs| && Loads(phdrs[i]) && start.top <= pt.pmm.top
    requires pt.good ==> Node(root, []) in pt.tables
    requires LoadsSegments(start, pt.Now(), root, phdrs, i, loaded)
    modifies pt, pt.pmm`top, pt.pmm.bmp.buf
    ensures pt.Valid() && (pt.good ==> Node(root, []) in pt.tables) && old(pt.pmm.top) <= pt.pmm.top
    ensures LoadsSegments(start, pt.Now(), root, phdrs, i + 1, more)
  {
    hide LoadsSegments, MapsFrames, Pmm.Left, Tree, Over;
    var ph := phdrs[i];
    var misalign := ph.vaddr % PAGE;
    var addr := ph.vaddr - misalign;
    var length := U64(ph.memsz + misalign + (PAGE - 1)) / PAGE * PAGE;
    ghost var before := pt.Now();
    ghost var frames := pt.MapFrames(root, addr, length, USER_ACCESS);
    more := Over(loaded, addr, frames);
    LoadsOneMore(start, before, pt.Now(), root, phdrs, i, loaded, frames);
  }
}
