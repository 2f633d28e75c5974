/** The virtual memory manager: page tables written in place, on frames from the page allocator. */
module Vmm {
  import opened Arith
  import opened Paging
  import opened Cost
  import opened Descent
  import Pmm

  const KERNEL_ACCESS: nat := 0x03
  const USER_ACCESS: nat := 0x07
  const MEM_PHYS_OFFSET: nat := 0xffff_8000_0000_0000
  const MEM_KERN_OFFSET: nat := 0xffff_ffff_8000_0000

  /** One flat-map update: `virt`'s page in space `root` becomes `entry`, all else is as before. */
  ghost predicate MapsOnly(mem: Memory, mem': Memory, spaces: set<nat>, root: nat, virt: nat, entry: nat) {
    forall r, v {:trigger Walk(mem', r, v)} :: r in spaces ==>
      Walk(mem', r, v) == if r == root && PageOf(v) == PageOf(virt) then Some(entry) else Walk(mem, r, v)
  }

  ghost predicate SameWalks(mem: Memory, mem': Memory, spaces: set<nat>) {
    forall r, v {:trigger Walk(mem', r, v)} :: r in spaces ==> Walk(mem', r, v) == Walk(mem, r, v)
  }

  /** The pages from `base` on become `entries`, a later page winning where the range wraps onto
      an earlier one; every other page of every space is as before. */
  ghost predicate MapsRange(mem: Memory, mem': Memory, spaces: set<nat>, root: nat, base: nat, entries: seq<nat>) {
    forall r, v {:trigger Walk(mem', r, v)} :: r in spaces ==>
      Walk(mem', r, v) ==
      if r == root && Hit(base, |entries|, PageOf(v)).Some? then Some(entries[Hit(base, |entries|, PageOf(v)).value])
      else Walk(mem, r, v)
  }

  lemma RangeGrows(mem: Memory, mem1: Memory, mem2: Memory, spaces: set<nat>, root: nat, base: nat, entries: seq<nat>,
                   entry: nat)
    requires MapsRange(mem, mem1, spaces, root, base, entries)
    requires MapsOnly(mem1, mem2, spaces, root, U64(base + |entries| * PAGE), entry)
    ensures MapsRange(mem, mem2, spaces, root, base, entries + [entry])
  {
    forall r, v | r in spaces
      ensures Walk(mem2, r, v) ==
              if r == root && Hit(base, |entries| + 1, PageOf(v)).Some?
                    then Some((entries + [entry])[Hit(base, |entries| + 1, PageOf(v)).value])
              else Walk(mem, r, v)
    {
      assert Walk(mem1, r, v) ==
             if r == root && Hit(base, |entries|, PageOf(v)).Some?
                   then Some(entries[Hit(base, |entries|, PageOf(v)).value])
             else Walk(mem, r, v);
    }
  }

  ghost function Spaces(tables: map<Node, nat>): set<nat> {
    set n | n in tables && n.path == [] :: n.root
  }

  /** `tables'` keeps every table of `tables` and adds only non-root tables at or above `floor`. */
  ghost predicate Grows(tables: map<Node, nat>, tables': map<Node, nat>, floor: nat) {
    && (forall m :: m in tables ==> m in tables' && tables'[m] == tables[m])
    && (forall m :: m in tables' ==> m in tables || (floor <= tables'[m] && m.path != []))
  }

  lemma GrowthKeepsSpaces(tables: map<Node, nat>, tables': map<Node, nat>, floor: nat)
    requires Grows(tables, tables', floor)
    ensures Spaces(tables) == Spaces(tables')
  {
  }

  lemma GrowthComposes(mem: Memory, tables: map<Node, nat>, floor: nat, mem1: Memory, tables1: map<Node, nat>,
                       mem2: Memory, tables2: map<Node, nat>)
    requires Grows(tables, tables1, floor) && Grows(tables1, tables2, floor)
    requires SameWalks(mem, mem1, Spaces(tables)) && SameWalks(mem1, mem2, Spaces(tables1))
    ensures Grows(tables, tables2, floor) && SameWalks(mem, mem2, Spaces(tables))
  {
    GrowthKeepsSpaces(tables, tables1, floor);
    forall r, v | r in Spaces(tables)
      ensures Walk(mem2, r, v) == Walk(mem, r, v)
    {
      assert Walk(mem1, r, v) == Walk(mem, r, v);
    }
  }

  /** The page tables at one moment; `top` is the allocator's floor. */
  datatype Snapshot = Snapshot(funds: Account, mem: Memory, tables: map<Node, nat>, top: nat)

  /** From `a` to `b` tables are built at `paths` where missing, all on new pages; this takes exactly
      the frames needed, succeeds exactly when there are enough, and then no walk changes. */
  ghost predicate Builds(a: Snapshot, b: Snapshot, root: nat, paths: set<seq<nat>>) {
    && Takes(a.funds, b.funds, root, paths, 0)
    && (b.funds.good ==> Grows(a.tables, b.tables, a.top) && SameWalks(a.mem, b.mem, Spaces(a.tables)))
  }

  lemma BuildsMore(a: Snapshot, b: Snapshot, c: Snapshot, root: nat, p: set<seq<nat>>, q: set<seq<nat>>)
    requires Builds(a, b, root, p) && Builds(b, c, root, q) && a.top <= b.top
    ensures Builds(a, c, root, p + q)
  {
    TakesMore(a.funds, b.funds, c.funds, root, p, 0, q, 0);
    if c.funds.good {
      GrowthComposes(a.mem, a.tables, a.top, b.mem, b.tables, c.mem, c.tables);
    }
  }

  /** One table that is missing. */
  lemma BuildsTable(a: Snapshot, b: Snapshot, n: Node)
    requires a.funds.good ==> n !in a.funds.keys
    requires b.funds.good <==> a.funds.good && a.funds.supply > 0
    requires b.funds.good ==> b.funds.keys == a.funds.keys + {n} && b.funds.supply == a.funds.supply - 1
    requires b.funds.good ==> Grows(a.tables, b.tables, a.top) && SameWalks(a.mem, b.mem, Spaces(a.tables))
    ensures Builds(a, b, n.root, {n.path})
  {
    hide Grows, SameWalks;
    NewTable(a.funds, n);
    assert b.funds.good ==> |Unbuilt(a.funds.keys, n.root, {n.path})| == 1;
  }

  /** The allocator gave `page`, or page 0 when it had none. */
  ghost predicate Yields(a: Snapshot, b: Snapshot, page: nat) {
    if a.funds.supply > 0 then
      page % PAGE == 0 && a.top <= page && page + PAGE == b.top && b.funds.supply + 1 == a.funds.supply
    else page == 0 && b.top == a.top && b.funds.supply == 0
  }

  /** One step of the walk in code takes the pages `p`. */
  ghost predicate Descends(a: Snapshot, b: Snapshot, table: nat, i: nat, flags: nat, p: seq<nat>, next: nat) {
    && StepsDown(a.mem, table, i, flags, p, b.funds.supply, b.mem, next) && NewPages(p, a.top, b.top)
    && |p| + b.funds.supply == a.funds.supply
  }

  lemma AddedDescends(a: Snapshot, b: Snapshot, table: nat, i: nat, flags: nat, page: nat)
    requires !Present(Load(a.mem, table, i)) && b.mem == WithTable(a.mem, table, i, flags, page) && Yields(a, b, page)
    ensures Descends(a, b, table, i, flags, if a.funds.supply > 0 then [page] else [], Target(Load(b.mem, table, i)))
  {
    hide WithTable;
    var p := if a.funds.supply > 0 then [page] else [];
    assert p != [] ==> p[1..] == [];
    assert NextTable(a.mem, table, i, flags, p) == (b.mem, Target(Load(b.mem, table, i)), []);
  }

  lemma FoundDescends(a: Snapshot, table: nat, i: nat, flags: nat)
    requires Present(Load(a.mem, table, i))
    ensures Descends(a, a, table, i, flags, [], Target(Load(a.mem, table, i)))
  {
  }

  /** The three steps to the leaf table take the pages `p`. */
  ghost predicate DescendsTo(a: Snapshot, b: Snapshot, root: nat, path: seq<nat>, flags: nat, p: seq<nat>, leaf: nat) {
    && Descend(a.mem, root, path, flags, p) == (b.mem, leaf, []) && NewPages(p, a.top, b.top)
    && |p| + b.funds.supply == a.funds.supply
  }

  lemma ThreeStepsDown(a: Snapshot, b: Snapshot, c: Snapshot, d: Snapshot, root: nat, path: seq<nat>, flags: nat,
                       p: seq<nat>, pml3: nat, q: seq<nat>, pml2: nat, r: seq<nat>, pml1: nat)
    requires |path| == 3 && Descends(a, b, root, path[0], flags, p, pml3)
    requires Descends(b, c, pml3, path[1], flags, q, pml2) && Descends(c, d, pml2, path[2], flags, r, pml1)
    ensures DescendsTo(a, d, root, path, flags, p + q + r, pml1)
  {
    DescendsInSteps(a.mem, root, path, flags, p, b.mem, pml3, q, c.mem, pml2, r, d.mem, pml1, d.funds.supply);
    NewPagesJoin(p, a.top, b.top, q, c.top);
    NewPagesJoin(p + q, a.top, c.top, r, d.top);
  }

  lemma TableIsPlaced(mem: Memory, tables: map<Node, nat>, top: nat, n: Node)
    requires Tree(mem, tables, top) && n in tables
    ensures Placed(mem, n, tables[n], top)
  {
  }

  /** Mapping a page keeps the tables a tree without sharing exactly when at most one frame is lacking. */
  lemma TreeIsKept(a: Snapshot, b: Snapshot, root: nat, virt: nat, entry: nat, flags: nat, p: seq<nat>, leaf: nat)
    requires Tree(a.mem, a.tables, a.top) && a.mem.Keys == a.tables.Values && Node(root, []) in a.tables && 0 !in a.mem
    requires flags <= 0x1ff && flags % 2 == 1 && entry % 2 == 1
    requires a.funds.good && a.funds.keys == a.tables.Keys && Builds(a, b, root, Prefixes(virt))
    requires DescendsTo(a, b, root, Path(virt), flags, p, leaf) && (b.funds.good || b.funds.supply == 0)
    ensures KeepsTree(a.tables, Store(b.mem, leaf, Slot(virt), entry), b.top) <==>
            |Unbuilt(a.funds.keys, root, Prefixes(virt))| <= a.funds.supply + 1
  {
    hide Tree, Path, Slot, Descend, KeepsTree, Prefixes, Unbuilt, Grows, SameWalks;
    TableIsPlaced(a.mem, a.tables, a.top, Node(root, []));
    TreesStayBelow(a.mem, a.tables, a.top, b.top);
    NewPagesFit(a.mem, a.tables, a.top, p, b.top);
    MissingAreUnbuilt(a.tables, root, virt);
    MappedKeepsTree(a.mem, a.tables, b.top, root, virt, entry, flags, p);
  }

  /** One table that is there. */
  lemma BuildsNothing(a: Snapshot, n: Node)
    requires a.funds.good ==> n in a.funds.keys
    ensures Builds(a, a, n.root, {n.path})
  {
    OldTable(a.funds, n);
  }

  lemma BuildsThree(a: Snapshot, b: Snapshot, c: Snapshot, d: Snapshot, root: nat, virt: nat)
    requires a.top <= b.top <= c.top
    requires var p, n := Path(virt), Node(root, []);
             && Builds(a, b, root, {Child(n, p[0]).path}) && Builds(b, c, root, {Child(Child(n, p[0]), p[1]).path})
             && Builds(c, d, root, {Child(Child(Child(n, p[0]), p[1]), p[2]).path})
    ensures Builds(a, d, root, Prefixes(virt))
  {
    var p, n := Path(virt), Node(root, []);
    PrefixesByIndex(virt, []);
    hide Builds, Path, Prefixes;
    var x, y := Child(n, p[0]).path, Child(Child(n, p[0]), p[1]).path;
    BuildsMore(a, b, c, root, {x}, {y});
    BuildsMore(a, c, d, root, {x} + {y}, {Child(Child(Child(n, p[0]), p[1]), p[2]).path});
    assert {x} + {y} + {Child(Child(Child(n, p[0]), p[1]), p[2]).path} == Prefixes(virt);
  }

  lemma LeafPath(root: nat, virt: nat)
    ensures var p := Path(virt);
            Child(Child(Child(Node(root, []), p[0]), p[1]), p[2]) == Node(root, p)
  {
    PrefixesByIndex(virt, []);
  }

  lemma LeafUpdates(mem: Memory, tables: map<Node, nat>, floor: nat, mem1: Memory, tables1: map<Node, nat>, top: nat,
                    root: nat, virt: nat, entry: nat)
    requires Grows(tables, tables1, floor) && SameWalks(mem, mem1, Spaces(tables))
    requires Tree(mem1, tables1, top) && Node(root, []) in tables && Node(root, Path(virt)) in tables1
    requires Present(entry)
    ensures var mem2 := Store(mem1, tables1[Node(root, Path(virt))], Slot(virt), entry);
            Tree(mem2, tables1, top) && MapsOnly(mem, mem2, Spaces(tables), root, virt, entry)
  {
    LeafUpdatesOnePage(mem1, tables1, top, root, virt, entry);
    var mem2 := Store(mem1, tables1[Node(root, Path(virt))], Slot(virt), entry);
    forall r, v | r in Spaces(tables)
      ensures Walk(mem2, r, v) == if r == root && PageOf(v) == PageOf(virt) then Some(entry) else Walk(mem, r, v)
    {
      assert Walk(mem1, r, v) == Walk(mem, r, v);
      assert Node(r, []) in tables1;
    }
  }

  lemma WithTableLinks(mem: Memory, tables: map<Node, nat>, top: nat, n: Node, i: nat, page: nat, flags: nat, top': nat)
    requires Tree(mem, tables, top) && n in tables && |n.path| < 3 && i < ENTRIES
    requires !Present(Load(mem, tables[n], i))
    requires top <= page && page % PAGE == 0 && page + PAGE <= top'
    requires flags <= 0x1ff && flags % 2 == 1
    ensures var mem' := WithTable(mem, tables[n], i, flags, page);
            var tables' := tables[Child(n, i) := page];
            && Tree(mem', tables', top') && Grows(tables, tables', top)
            && SameWalks(mem, mem', Spaces(tables))
            && Target(Load(mem', tables[n], i)) == page && Load(mem', tables[n], i) == page + flags
            && (mem.Keys == tables.Values ==> mem'.Keys == tables'.Values)
  {
    assert Placed(mem, n, tables[n], top) && Linked(mem, tables, n, i);
    var row: seq<nat> := mem[tables[n]];
    assert row[i := page][i := page + flags] == row[i := page + flags];
    assert WithTable(mem, tables[n], i, flags, page) == Store(Cleared(mem, page), tables[n], i, page + flags);
    NewPagesAreUnused(mem, tables, top, page);
    LinkKeepsWalks(mem, tables, top, n, i, page, flags, top');
    TargetsSurviveNineFlagBits(page, flags);
    AddedValue(tables, Child(n, i), page);
  }

  lemma AbsentChild(mem: Memory, tables: map<Node, nat>, top: nat, n: Node, i: nat)
    requires Tree(mem, tables, top) && n in tables && |n.path| < 3 && i < ENTRIES
    requires !Present(Load(mem, tables[n], i))
    ensures Child(n, i) !in tables
  {
    assert Linked(mem, tables, n, i);
  }

  lemma AddedValue(tables: map<Node, nat>, n: Node, page: nat)
    requires n !in tables
    ensures tables[n := page].Values == tables.Values + {page}
  {
    var more := tables[n := page];
    assert more[n] == page && forall m :: m in tables ==> more[m] == tables[m];
  }

  // ----- frames handed to a range of pages -----

  function Entries(frames: seq<nat>, flags: nat): (e: seq<nat>)
    ensures |e| == |frames| && forall i :: 0 <= i < |e| ==> e[i] == frames[i] + flags
  {
    seq(|frames|, i requires 0 <= i < |frames| => frames[i] + flags)
  }

  /** Frames new since `floor`, disjoint from one another and from every page table. */
  ghost predicate OwnFrames(frames: seq<nat>, tables: map<Node, nat>, floor: nat, top: nat) {
    && (forall k :: 0 <= k < |frames| ==> floor <= frames[k] && frames[k] % PAGE == 0 && frames[k] + PAGE <= top)
    && (forall j, k :: 0 <= j < k < |frames| ==> frames[j] + PAGE <= frames[k])
    && (forall n, k :: n in tables && 0 <= k < |frames| ==> tables[n] != frames[k])
  }

  lemma OwnFramesSince(frames: seq<nat>, tables: map<Node, nat>, floor: nat, later: nat, top: nat)
    requires OwnFrames(frames, tables, later, top) && floor <= later
    ensures OwnFrames(frames, tables, floor, top)
  {
  }

  lemma OwnFramesGrow(frames: seq<nat>, mem1: Memory, tables1: map<Node, nat>, floor: nat, top1: nat, frame: nat,
                      tables2: map<Node, nat>, top2: nat)
    requires OwnFrames(frames, tables1, floor, top1) && Tree(mem1, tables1, top1)
    requires floor <= top1 <= frame && frame % PAGE == 0 && frame + PAGE <= top2
    requires Grows(tables1, tables2, frame + PAGE)
    ensures OwnFrames(frames + [frame], tables2, floor, top2)
  {
    var all := frames + [frame];
    forall n, k | n in tables2 && 0 <= k < |all|
      ensures tables2[n] != all[k]
    {
      if n in tables1 {
        assert Placed(mem1, n, tables1[n], top1);
      }
    }
  }

  /** The pages from `base` on are mapped to `frames`: each page to a frame of its own, taken for it.
      This succeeds exactly when there are enough frames for the pages and the missing tables. */
  ghost predicate MapsFrames(a: Snapshot, b: Snapshot, root: nat, base: nat, flags: nat, frames: seq<nat>) {
    && Takes(a.funds, b.funds, root, PathsOf(base, |frames|), |frames|)
    && (b.funds.good ==>
          && Grows(a.tables, b.tables, a.top) && OwnFrames(frames, b.tables, a.top, b.top)
          && MapsRange(a.mem, b.mem, Spaces(a.tables), root, base, Entries(frames, flags)))
  }

  /** From `a` to `b` one page is mapped to `entry`. */
  ghost predicate MapsPage(a: Snapshot, b: Snapshot, root: nat, virt: nat, entry: nat) {
    && Takes(a.funds, b.funds, root, Prefixes(virt), 0)
    && (b.funds.good ==>
          && a.funds.good && Grows(a.tables, b.tables, a.top)
          && MapsOnly(a.mem, b.mem, Spaces(a.tables), root, virt, entry))
  }

  lemma MapsLeaf(a: Snapshot, b: Snapshot, root: nat, virt: nat, entry: nat, leaf: nat)
    requires Builds(a, b, root, Prefixes(virt)) && entry % 2 == 1 && (b.funds.good ==> a.funds.good)
    requires b.funds.good ==>
               && Tree(b.mem, b.tables, b.top) && Node(root, []) in a.tables && b.mem.Keys == b.tables.Values
               && Node(root, Path(virt)) in b.tables && leaf == b.tables[Node(root, Path(virt))]
    ensures var m := Store(b.mem, leaf, Slot(virt), entry);
            && MapsPage(a, b.(mem := m), root, virt, entry)
            && (b.funds.good ==> Tree(m, b.tables, b.top) && m.Keys == b.tables.Values && Node(root, []) in b.tables)
  {
    hide Tree, Path, Slot, Prefixes, Takes, MapsOnly, SameWalks;
    if b.funds.good {
      LeafUpdates(a.mem, a.tables, a.top, b.mem, b.tables, b.top, root, virt, entry);
    }
  }

  /** After `b` a frame is taken, giving `c`, and the next page mapped to it, giving `d`. */
  lemma MapsNextFrame(a: Snapshot, b: Snapshot, c: Snapshot, d: Snapshot, root: nat, base: nat, flags: nat,
                      frames: seq<nat>, frame: nat)
    requires MapsFrames(a, b, root, base, flags, frames) && (b.funds.good ==> Tree(b.mem, b.tables, b.top))
    requires a.top <= b.top && c.top <= d.top && flags < PAGE && c.mem == b.mem && c.tables == b.tables
    requires Takes(b.funds, c.funds, root, {}, 1)
    requires c.funds.good ==> b.funds.good && b.top <= frame && frame % PAGE == 0 && frame + PAGE == c.top
    requires MapsPage(c, d, root, U64(base + |frames| * PAGE), Or(frame, flags))
    ensures MapsFrames(a, d, root, base, flags, frames + [frame])
  {
    hide Takes, PathsOf, Prefixes, Path, PageOf, MapsRange, MapsOnly, Tree, Or;
    TakesNextFrame(a.funds, b.funds, c.funds, d.funds, root, base, |frames|);
    if d.funds.good {
      OrFlags(frame, flags);
      GrowthKeepsSpaces(a.tables, b.tables, a.top);
      RangeGrows(a.mem, b.mem, d.mem, Spaces(a.tables), root, base, Entries(frames, flags), frame + flags);
      assert Entries(frames + [frame], flags) == Entries(frames, flags) + [frame + flags];
      OwnFramesGrow(frames, b.mem, b.tables, a.top, b.top, frame, d.tables, d.top);
    }
  }

  lemma StartsMapping(a: Snapshot, root: nat, base: nat, flags: nat)
    ensures MapsFrames(a, a, root, base, flags, [])
  {
    TakesNothing(a.funds, root);
  }

  /** The pages from `base` on get `entries`; only missing tables take frames. */
  ghost predicate MapsEntries(a: Snapshot, b: Snapshot, root: nat, base: nat, entries: seq<nat>) {
    && Takes(a.funds, b.funds, root, PathsOf(base, |entries|), 0)
    && (b.funds.good ==>
          Grows(a.tables, b.tables, a.top) && MapsRange(a.mem, b.mem, Spaces(a.tables), root, base, entries))
  }

  lemma MapsNextEntry(a: Snapshot, b: Snapshot, c: Snapshot, root: nat, base: nat, entries: seq<nat>, entry: nat)
    requires MapsEntries(a, b, root, base, entries) && a.top <= b.top
    requires MapsPage(b, c, root, U64(base + |entries| * PAGE), entry)
    ensures MapsEntries(a, c, root, base, entries + [entry])
  {
    hide Takes, Prefixes, MapsRange, MapsOnly;
    TakesMore(a.funds, b.funds, c.funds, root, PathsOf(base, |entries|), 0, Prefixes(U64(base + |entries| * PAGE)), 0);
    if c.funds.good {
      GrowthKeepsSpaces(a.tables, b.tables, a.top);
      RangeGrows(a.mem, b.mem, c.mem, Spaces(a.tables), root, base, entries, entry);
    }
  }

  lemma StartsEntries(a: Snapshot, root: nat, base: nat)
    ensures MapsEntries(a, a, root, base, [])
  {
    TakesNothing(a.funds, root);
  }

  // ----- the kernel's own mappings -----

  const PHYS_PAGE: nat := 0x8_0000_0000  // page number of MEM_PHYS_OFFSET
  const KERN_PAGE: nat := 0xf_fff8_0000  // page number of MEM_KERN_OFFSET
  const LOW_PAGES: nat := 0x10_0000      // 4 GiB
  const KERN_PAGES: nat := 0x8_0000      // 2 GiB

  /** How far map_spec has come: pages of the direct map, of the identity map, of the image. */
  datatype Extent = Extent(phys: nat, low: nat, kern: nat)

  const ALL_MAPPED: Extent := Extent(LOW_PAGES, LOW_PAGES, KERN_PAGES)

  function KernelEntry(virt: nat, e: Extent, before: Option<nat>): Option<nat> {
    var p := PageOf(virt);
    if PHYS_PAGE <= p < PHYS_PAGE + e.phys then Some((p - PHYS_PAGE) * PAGE + KERNEL_ACCESS)
    else if p < e.low then Some(p * PAGE + KERNEL_ACCESS)
    else if KERN_PAGE <= p < KERN_PAGE + e.kern then Some((p - KERN_PAGE) * PAGE + KERNEL_ACCESS)
    else before
  }

  ghost predicate MapsKernel(mem: Memory, mem': Memory, spaces: set<nat>, root: nat, e: Extent) {
    forall r, v {:trigger Walk(mem', r, v)} :: r in spaces ==>
      Walk(mem', r, v) == if r == root then KernelEntry(v, e, Walk(mem, r, v)) else Walk(mem, r, v)
  }

  /** Mapping `virt` to physical page `page` takes the extent from `e` to `f`. */
  ghost predicate Extends(e: Extent, f: Extent, virt: nat, page: nat) {
    && f.phys <= LOW_PAGES && f.low <= LOW_PAGES && f.kern <= KERN_PAGES
    && (|| (f == e.(phys := page + 1) && page == e.phys && PageOf(virt) == PHYS_PAGE + page)
        || (f == e.(low := page + 1) && page == e.low && PageOf(virt) == page)
        || (f == e.(kern := page + 1) && page == e.kern && PageOf(virt) == KERN_PAGE + page))
  }

  lemma KernelPages(k: nat)
    ensures k < LOW_PAGES ==> PageOf(U64(MEM_PHYS_OFFSET + k * PAGE)) == PHYS_PAGE + k
    ensures k < LOW_PAGES ==> PageOf(k * PAGE) == k
    ensures k < KERN_PAGES ==> PageOf(U64(MEM_KERN_OFFSET + k * PAGE)) == KERN_PAGE + k
  {
    PageOfOffset(MEM_PHYS_OFFSET, k);
    PageOfOffset(MEM_KERN_OFFSET, k);
    PageOfOffset(0, k);
  }

  lemma MapsKernelGrows(mem: Memory, mem1: Memory, mem2: Memory, spaces: set<nat>, root: nat, virt: nat, page: nat,
                        e: Extent, f: Extent)
    requires MapsKernel(mem, mem1, spaces, root, e)
    requires MapsOnly(mem1, mem2, spaces, root, virt, page * PAGE + KERNEL_ACCESS)
    requires Extends(e, f, virt, page)
    ensures MapsKernel(mem, mem2, spaces, root, f)
  {
    forall r, v | r in spaces
      ensures Walk(mem2, r, v) == if r == root then KernelEntry(v, f, Walk(mem, r, v)) else Walk(mem, r, v)
    {
      assert Walk(mem1, r, v) == if r == root then KernelEntry(v, e, Walk(mem, r, v)) else Walk(mem, r, v);
    }
  }

  /** The tables below the top-level one that the extent's pages need. */
  function KernelPaths(e: Extent): set<seq<nat>> {
    PathsOf(MEM_PHYS_OFFSET, e.phys) + PathsOf(0, e.low) + PathsOf(MEM_KERN_OFFSET, e.kern)
  }

  lemma SamePageSamePrefixes(v: nat, w: nat)
    requires PageOf(v) == PageOf(w)
    ensures Prefixes(v) == Prefixes(w)
  {
    IndicesNameThePage(v, w);
  }

  lemma KernelPathsGrow(e: Extent, f: Extent, virt: nat, page: nat)
    requires Extends(e, f, virt, page)
    ensures KernelPaths(f) == KernelPaths(e) + Prefixes(virt)
  {
    KernelPages(page);
    hide Prefixes, PageOf;
    if f == e.(phys := page + 1) && page == e.phys && PageOf(virt) == PHYS_PAGE + page {
      SamePageSamePrefixes(virt, U64(MEM_PHYS_OFFSET + page * PAGE));
    } else if f == e.(low := page + 1) && page == e.low && PageOf(virt) == page {
      SamePageSamePrefixes(virt, U64(0 + page * PAGE));
    } else {
      SamePageSamePrefixes(virt, U64(MEM_KERN_OFFSET + page * PAGE));
    }
  }

  /** map_spec has come as far as `e`. */
  ghost predicate MapsExtent(a: Snapshot, b: Snapshot, root: nat, e: Extent) {
    && Takes(a.funds, b.funds, root, KernelPaths(e), 0)
    && (b.funds.good ==> Grows(a.tables, b.tables, a.top) && MapsKernel(a.mem, b.mem, Spaces(a.tables), root, e))
  }

  lemma StartsExtent(a: Snapshot, root: nat)
    ensures MapsExtent(a, a, root, Extent(0, 0, 0))
  {
    TakesNothing(a.funds, root);
    assert KernelPaths(Extent(0, 0, 0)) == {};
  }

  lemma MapsMoreOfTheKernel(a: Snapshot, b: Snapshot, c: Snapshot, root: nat, virt: nat, page: nat, e: Extent,
                            f: Extent)
    requires MapsExtent(a, b, root, e) && Extends(e, f, virt, page) && a.top <= b.top
    requires MapsPage(b, c, root, virt, page * PAGE + KERNEL_ACCESS)
    ensures MapsExtent(a, c, root, f)
  {
    hide Takes, Prefixes, MapsKernel, MapsOnly, KernelPaths, Extends;
    TakesMore(a.funds, b.funds, c.funds, root, KernelPaths(e), 0, Prefixes(virt), 0);
    KernelPathsGrow(e, f, virt, page);
    if c.funds.good {
      GrowthKeepsSpaces(a.tables, b.tables, a.top);
      MapsKernelGrows(a.mem, b.mem, c.mem, Spaces(a.tables), root, virt, page, e, f);
    }
  }

  /** What booting takes: the top-level table, the heap's frames, and the tables for everything. */
  function BootPaths(): set<seq<nat>> {
    KernelPaths(ALL_MAPPED) + PathsOf(KERNEL_HEAP_LOW, HEAP_PAGES)
  }

  ghost function BootCost(): nat {
    1 + HEAP_PAGES + |BootPaths()|
  }

  function KernelSpace(heap: seq<nat>, virt: nat): Option<nat> {
    var h := Hit(KERNEL_HEAP_LOW, |heap|, PageOf(virt));
    if h.Some? then Some(heap[h.value] + KERNEL_ACCESS)
    else KernelEntry(virt, ALL_MAPPED, None)
  }

  /** The kernel's address space in numbers: the first 4 GiB map to themselves, so do 4 GiB from
      0xffff800000000000 on and 2 GiB from 0xffffffff80000000 on less those offsets, the heap's pages to their
      frames, all with the present and the write bit; every other canonical address is unmapped. */
  lemma KernelSpaceInNumbers(heap: seq<nat>, v: nat)
    requires |heap| == 10000 && (v < 0x8000_0000_0000 || 0xffff_8000_0000_0000 <= v < 0x1_0000_0000_0000_0000)
    ensures KernelSpace(heap, v) ==
            if v < 0x1_0000_0000 then Some(v - v % 4096 + 3)
            else if 0x6400_0237_f000 <= v < 0x6400_0237_f000 + 40960000 then
              Some(heap[(v - 0x6400_0237_f000) / 4096] + 3)
            else if 0xffff_8000_0000_0000 <= v < 0xffff_8001_0000_0000 then
              Some(v - v % 4096 - 0xffff_8000_0000_0000 + 3)
            else if 0xffff_ffff_8000_0000 <= v then Some(v - v % 4096 - 0xffff_ffff_8000_0000 + 3)
            else None
  {
    hide KernelSpace, PageOf;
    var p, m := v / 4096, v % 4096;
    DivMod(v, 4096);
    PageNumber(v, p);
    SpaceByPage(heap, v, PageOf(v));
    if 0x6400_0237_f000 <= v < 0x6400_0237_f000 + 40960000 {
      HeapIndex(v, p);
    } else if v >= 0xffff_8000_0000_0000 {
      UpperHalf(v, p, m);
    }
  }

  lemma UpperHalf(v: nat, p: nat, m: nat)
    requires v == p * 4096 + m && m < 4096 && 0xffff_8000_0000_0000 <= v < 0x1_0000_0000_0000_0000
    ensures var q := p - 0xf_fff0_0000_0000;
            && (0x8_0000_0000 <= q < 0x8_0010_0000 <==> v < 0xffff_8001_0000_0000)
            && (0xf_fff8_0000 <= q < 0x10_0000_0000 <==> 0xffff_ffff_8000_0000 <= v)
            && q >= 0x8_0000_0000
            && (q - 0x8_0000_0000) * 4096 == v - m - 0xffff_8000_0000_0000
            && (q - 0xf_fff8_0000) * 4096 == v - m - 0xffff_ffff_8000_0000
  {
  }

  lemma SpaceByPage(heap: seq<nat>, v: nat, p: nat)
    requires |heap| == 10000 && p == PageOf(v)
    ensures KernelSpace(heap, v) ==
            if 0x6_4000_237f <= p < 0x6_4000_237f + 10000 then Some(heap[p - 0x6_4000_237f] + 3)
            else if 0x8_0000_0000 <= p < 0x8_0010_0000 then Some((p - 0x8_0000_0000) * 4096 + 3)
            else if p < 0x10_0000 then Some(p * 4096 + 3)
            else if 0xf_fff8_0000 <= p < 0x10_0000_0000 then Some((p - 0xf_fff8_0000) * 4096 + 3)
            else None
  {
    hide Hit, PageOf;
    HeapHit(p);
  }

  lemma HeapPage(i: nat)
    requires i < 10000
    ensures PageOf(U64(KERNEL_HEAP_LOW + i * PAGE)) == 0x6_4000_237f + i
  {
    PageOfOffset(KERNEL_HEAP_LOW, i);
  }

  lemma HeapHit(page: nat)
    ensures Hit(KERNEL_HEAP_LOW, HEAP_PAGES, page) ==
            if 0x6_4000_237f <= page < 0x6_4000_237f + 10000 then Some(page - 0x6_4000_237f) else None
  {
    hide PageOf, U64;
    var r := Hit(KERNEL_HEAP_LOW, HEAP_PAGES, page);
    if 0x6_4000_237f <= page < 0x6_4000_237f + 10000 {
      var i := page - 0x6_4000_237f;
      HeapPage(i);
      HitsAreExact(KERNEL_HEAP_LOW, HEAP_PAGES, i);
    } else if r.Some? {
      HeapPage(r.value);
    }
  }

  lemma PageNumber(v: nat, p: nat)
    requires v == p * 4096 + v % 4096
    requires v < 0x8000_0000_0000 || 0xffff_8000_0000_0000 <= v < 0x1_0000_0000_0000_0000
    ensures PageOf(v) == if v < 0x8000_0000_0000 then p else p - 0xf_fff0_0000_0000
  {
  }

  lemma HeapIndex(v: nat, p: nat)
    requires v == p * 4096 + v % 4096 && 0x6400_0237_f000 <= v
    ensures (v - 0x6400_0237_f000) / 4096 == p - 0x6_4000_237f
  {
  }

  /** Booting takes no more than 25442 frames, about 100 MiB. */
  lemma BootCostBound()
    ensures BootCost() <= 25442
  {
    var phys, low := PathsOf(MEM_PHYS_OFFSET, LOW_PAGES), PathsOf(0, LOW_PAGES);
    var kern, heap := PathsOf(MEM_KERN_OFFSET, KERN_PAGES), PathsOf(KERNEL_HEAP_LOW, HEAP_PAGES);
    RangeNeedsFewTables(MEM_PHYS_OFFSET, LOW_PAGES);
    RangeNeedsFewTables(0, LOW_PAGES);
    RangeNeedsFewTables(MEM_KERN_OFFSET, KERN_PAGES);
    RangeNeedsFewTables(KERNEL_HEAP_LOW, HEAP_PAGES);
    hide PathsOf;
    UnionIsNoLarger(phys, low);
    UnionIsNoLarger(phys + low, kern);
    UnionIsNoLarger(phys + low + kern, heap);
  }

  lemma BootTakes(a: Account, b: Account, c: Account, d: Account, pml: nat)
    requires Spends(a, b, pml, {[]}, 1) && (b.good ==> forall n :: n in a.keys ==> n.root != pml)
    requires Takes(b, c, pml, KernelPaths(ALL_MAPPED), 0)
    requires Takes(c, d, pml, PathsOf(KERNEL_HEAP_LOW, HEAP_PAGES), HEAP_PAGES)
    ensures d.good <==> a.good && BootCost() <= a.supply
  {
    hide PathsOf, KernelPaths, BootPaths;
    BootPathsLeadDown();
    TakesMore(b, c, d, pml, KernelPaths(ALL_MAPPED), 0, PathsOf(KERNEL_HEAP_LOW, HEAP_PAGES), HEAP_PAGES);
    if b.good {
      AllUnbuilt(b.keys, pml, BootPaths());
    }
  }

  lemma BootPathsLeadDown()
    ensures [] !in BootPaths()
    ensures BootPaths() == KernelPaths(ALL_MAPPED) + PathsOf(KERNEL_HEAP_LOW, HEAP_PAGES)
  {
    hide PathsOf;
    PathsLeadDown(MEM_PHYS_OFFSET, LOW_PAGES);
    PathsLeadDown(0, LOW_PAGES);
    PathsLeadDown(MEM_KERN_OFFSET, KERN_PAGES);
    PathsLeadDown(KERNEL_HEAP_LOW, HEAP_PAGES);
  }

  lemma OneNode(root: nat)
    ensures Nodes(root, {[]}) == {Node(root, [])}
  {
  }

  lemma SpaceAdded(mem: Memory, tables: map<Node, nat>, top: nat, page: nat, top': nat)
    requires Tree(mem, tables, top) && top <= page && page % PAGE == 0 && page + PAGE <= top'
    ensures var mem', tables' := Store(Cleared(mem, page), page, 511, page), tables[Node(page, []) := page];
            && Tree(mem', tables', top') && SameWalks(mem, mem', Spaces(tables))
            && (forall v :: Walk(mem', page, v) == None) && Load(mem', page, 511) == page
            && (mem.Keys == tables.Values ==> mem'.Keys == tables'.Values)
    ensures Node(page, []) !in tables && forall n :: n in tables ==> n.root != page
  {
    hide Walk, Tree;
    NewRootIsEmpty(mem, tables, top, page, top');
    NoTablesWithoutTheTop(mem, tables, top, page);
    AddedValue(tables, Node(page, []), page);
  }

  lemma NoTablesWithoutTheTop(mem: Memory, tables: map<Node, nat>, top: nat, pml: nat)
    requires Tree(mem, tables, top) && Node(pml, []) !in tables
    ensures forall n :: n in tables ==> n.root != pml
  {
    forall n | n in tables
      ensures n.root != pml
    {
      assert forall m :: m in tables ==> Rooted(tables, m);
      AncestorsExist(tables, n, 0);
      assert n.path[..0] == [];
    }
  }

  /** The heap does not start on a page boundary: of its 10000 pages' worth of addresses all are
      mapped but the last half page. */
  lemma HeapIsMapped(heap: seq<nat>, at: nat)
    requires |heap| == HEAP_PAGES && KERNEL_HEAP_LOW <= at < KERNEL_HEAP_LOW + HEAP_PAGES * PAGE
    ensures KernelSpace(heap, at).Some? <==> at < KERNEL_HEAP_LOW + HEAP_PAGES * PAGE - 0x800
  {
    var i := at / PAGE - KERNEL_HEAP_LOW / PAGE;
    PageOfOffset(KERNEL_HEAP_LOW, i);
    assert PageOf(U64(KERNEL_HEAP_LOW + i * PAGE)) == PageOf(at);
    NextPageIsNoHit(KERNEL_HEAP_LOW, HEAP_PAGES);
  }

  lemma VmmInitMap(mem0: Memory, mem1: Memory, mem2: Memory, mem3: Memory, before: set<nat>, spaces: set<nat>,
                   pml: nat, heap: seq<nat>)
    requires before <= spaces && pml in spaces && pml !in before
    requires SameWalks(mem0, mem1, before) && forall v :: Walk(mem1, pml, v) == None
    requires MapsKernel(mem1, mem2, spaces, pml, ALL_MAPPED)
    requires MapsRange(mem2, mem3, spaces, pml, KERNEL_HEAP_LOW, Entries(heap, KERNEL_ACCESS))
    ensures forall v :: Walk(mem3, pml, v) == KernelSpace(heap, v)
    ensures SameWalks(mem0, mem3, before)
  {
    forall v
      ensures Walk(mem3, pml, v) == KernelSpace(heap, v)
    {
      assert Walk(mem2, pml, v) == KernelEntry(v, ALL_MAPPED, Walk(mem1, pml, v));
    }
    forall r, v | r in before
      ensures Walk(mem3, r, v) == Walk(mem0, r, v)
    {
      assert Walk(mem2, r, v) == Walk(mem1, r, v) == Walk(mem0, r, v);
    }
  }

  /** The kernel image lies below the last top-level slot, so that slot holds a table of its own. */
  lemma LastSlotIsTaken(mem: Memory, tables: map<Node, nat>, top: nat, pml: nat, heap: seq<nat>)
    requires Tree(mem, tables, top) && Node(pml, []) in tables && |heap| == HEAP_PAGES
    requires forall v :: Walk(mem, pml, v) == KernelSpace(heap, v)
    ensures Present(Load(mem, pml, 511)) && Target(Load(mem, pml, 511)) != pml
  {
    var n := Node(pml, []);
    KernelPages(0);
    var v := MEM_KERN_OFFSET;
    assert PageOf(v) == KERN_PAGE && Path(v)[0] == 511;
    assert Walk(mem, pml, v).Some?;
    WalkOfTree(mem, tables, top, pml, v);
    AncestorsExist(tables, Node(pml, Path(v)), 1);
    assert Path(v)[..1] == [] + [511];
    assert Placed(mem, n, tables[n], top) && Linked(mem, tables, n, 511) && Apart(tables, n, Child(n, 511));
  }

  /** next_level_or_alloc does not test for NULL: after two failed allocations two entries, of one
      table or of two, have page 0 for their table. */
  lemma NullTablesCollide(mem: Memory, a: nat, i: nat, b: nat, j: nat, flags: nat)
    requires a in mem && |mem[a]| == ENTRIES && a != 0 && (b == 0 || (b in mem && |mem[b]| == ENTRIES))
    requires (a != b || i != j) && i < ENTRIES && j < ENTRIES && flags <= 0x1ff && flags % 2 == 1
    ensures var mem' := WithTable(WithTable(mem, a, i, flags, 0), b, j, flags, 0);
            && Present(Load(mem', a, i)) && Present(Load(mem', b, j))
            && Target(Load(mem', a, i)) == 0 == Target(Load(mem', b, j))
  {
    WithTableIsLink(mem, a, i, flags, 0);
    assert Target(flags) == 0 && Present(flags) by {
      TargetsSurviveNineFlagBits(0, flags);
    }
  }

  /** A range no larger than the address space gives page `i` exactly frame `i`. */
  lemma EachPageItsOwnFrame(mem: Memory, mem': Memory, spaces: set<nat>, root: nat, base: nat, frames: seq<nat>,
                            flags: nat, i: nat)
    requires MapsRange(mem, mem', spaces, root, base, Entries(frames, flags)) && root in spaces
    requires i < |frames| <= PAGES_48
    ensures Walk(mem', root, U64(base + i * PAGE)) == Some(frames[i] + flags)
  {
    HitsAreExact(base, |frames|, i);
  }

  class PageTables {
    const pmm: Pmm.PageAllocator
    var mem: Memory
    ghost var tables: map<Node, nat>
    ghost var good: bool  // no page allocation has failed so far

    ghost predicate Valid()
      reads this, pmm, pmm.bmp.buf
    {
      pmm.Valid() && (good ==> Tree(mem, tables, pmm.top) && mem.Keys == tables.Values)
    }

    ghost function Funds(): (a: Account)
      requires pmm.Valid()
      reads this, pmm, pmm.bmp.buf
      ensures a.good == good
    {
      Account(good, tables.Keys, |Pmm.Left(pmm.Now())|)
    }

    ghost function Now(): Snapshot
      requires pmm.Valid()
      reads this, pmm, pmm.bmp.buf
    {
      Snapshot(Funds(), mem, tables, pmm.top)
    }

    constructor (pmm: Pmm.PageAllocator)
      requires pmm.Valid()
      ensures Valid() && good && tables == map[] && this.pmm == pmm
    {
      this.pmm := pmm;
      mem, tables, good := map[], map[], true;
    }

    /** A page frame from the allocator; `ok` tells a page from NULL and from garbage. */
    method Frame() returns (page: nat, ghost ok: bool)
      requires pmm.Valid()
      modifies pmm`top, pmm.bmp.buf
      ensures pmm.Valid() && page % PAGE == 0
      ensures if ok then old(pmm.top) <= page && pmm.top == page + PAGE else pmm.top == old(pmm.top)
      ensures ok <==> old(|Pmm.Left(pmm.Now())|) > 0
      ensures |Pmm.Left(pmm.Now())| == old(|Pmm.Left(pmm.Now())|) - if ok then 1 else 0
      ensures old(Pmm.AllOnMap(pmm.Now())) ==> Pmm.AllOnMap(pmm.Now()) && (!ok ==> page == 0)
    {
      if Pmm.AllOnMap(pmm.Now()) {
        Pmm.AllocsStayOnTheMap(pmm.Now());
      }
      hide Pmm.Left, Pmm.AllocStep, Pmm.Sane, Pmm.Above;
      Pmm.AllocSpends(pmm.Now());
      ghost var r;
      page, r := pmm.AllocPage();
      ok := r.Page?;
    }

    /** Hangs a cleared page below the absent entry `i` of `table`; `n` names `table`. */
    method AddTable(table: nat, i: nat, flags: nat, ghost n: Node) returns (ghost page: nat)
      requires Valid() && i < ENTRIES && flags <= 0x1ff && flags % 2 == 1
      requires good ==> n in tables && tables[n] == table && |n.path| < 3
      requires !Present(Load(mem, table, i))
      modifies this, pmm`top, pmm.bmp.buf
      ensures Valid() && (good ==> old(good)) && old(pmm.top) <= pmm.top
      ensures Builds(old(Now()), Now(), n.root, {Child(n, i).path})
      ensures good ==> Child(n, i) in tables && Target(Load(mem, table, i)) == tables[Child(n, i)]
      ensures good ==> Load(mem, table, i) == tables[Child(n, i)] + flags
      ensures Funds().supply <= old(Funds()).supply && (old(good) ==> good || Funds().supply == 0)
      ensures old(Pmm.AllOnMap(pmm.Now())) ==>
                && Pmm.AllOnMap(pmm.Now()) && mem == WithTable(old(mem), table, i, flags, page)
                && Yields(old(Now()), Now(), page)
    {
      hide Builds, Tree, Linked, Grows, SameWalks, WithTable, Pmm.Left, Present, Target, Load, Pmm.AllOnMap;
      ghost var start, child := Now(), Child(n, i);
      if good {
        AbsentChild(mem, tables, pmm.top, n, i);
      }
      var frame, ok := Frame();
      page := frame;
      if good && ok {
        WithTableLinks(mem, tables, start.top, n, i, page, flags, pmm.top);
        tables := tables[child := page];
        assert tables.Keys == start.tables.Keys + {child};
      }
      good := good && ok;
      mem := WithTable(mem, table, i, flags, frame);
      BuildsTable(start, Now(), child);
    }

    /** The table below entry `i` of `table`, allocating it if absent; `n` names `table`. */
    method NextLevelOrAlloc(table: nat, i: nat, flags: nat, ghost n: Node) returns (next: nat, ghost pages: seq<nat>)
      requires Valid() && i < ENTRIES && flags <= 0x1ff && flags % 2 == 1
      requires good ==> n in tables && tables[n] == table && |n.path| < 3
      modifies this, pmm`top, pmm.bmp.buf
      ensures Valid() && (good ==> old(good)) && old(pmm.top) <= pmm.top
      ensures Builds(old(Now()), Now(), n.root, {Child(n, i).path})
      ensures good ==> Child(n, i) in tables && next == tables[Child(n, i)]
      // the new table is reached with the flags given, a table that was there with its own
      ensures good ==>
                Load(mem, table, i) == old(if Present(Load(mem, table, i)) then Load(mem, table, i) else next + flags)
      ensures Funds().supply <= old(Funds()).supply && (old(good) ==> good || Funds().supply == 0)
      ensures old(Pmm.AllOnMap(pmm.Now())) ==>
                Pmm.AllOnMap(pmm.Now()) && Descends(old(Now()), Now(), table, i, flags, pages, next)
    {
      if good && Present(Load(mem, table, i)) {
        assert Linked(mem, tables, n, i);
      }
      hide WithTable, Yields, Builds, Descends, Tree, Pmm.Left, Takes, Pmm.AllOnMap, Load;
      pages := [];
      if !Present(Load(mem, table, i)) {
        ghost var page := AddTable(table, i, flags, n);
        pages := if old(Funds()).supply > 0 then [page] else [];
        if old(Pmm.AllOnMap(pmm.Now())) {
          AddedDescends(old(Now()), Now(), table, i, flags, page);
        }
      } else {
        BuildsNothing(Now(), Child(n, i));
        FoundDescends(Now(), table, i, flags);
      }
      next := Target(Load(mem, table, i));
    }

    /** The leaf table for `virt`, allocating the levels that are missing. */
    method LeafTable(root: nat, virt: nat, flags: nat) returns (pml1: nat, ghost pages: seq<nat>)
      requires Valid() && flags <= 0x1ff && flags % 2 == 1
      requires good ==> Node(root, []) in tables
      modifies this, pmm`top, pmm.bmp.buf
      ensures Valid() && (good ==> old(good)) && old(pmm.top) <= pmm.top
      ensures Builds(old(Now()), Now(), root, Prefixes(virt))
      ensures good ==> Node(root, Path(virt)) in tables && pml1 == tables[Node(root, Path(virt))]
      ensures Funds().supply <= old(Funds()).supply && (old(good) ==> good || Funds().supply == 0)
      ensures old(Pmm.AllOnMap(pmm.Now())) ==>
                Pmm.AllOnMap(pmm.Now()) && DescendsTo(old(Now()), Now(), root, Path(virt), flags, pages, pml1)
    {
      var p := Path(virt);
      assert p[0] in p && p[1] in p && p[2] in p;
      ghost var n, a := Node(root, []), Now();
      if good {
        TableIsPlaced(mem, tables, pmm.top, n);
      }
      LeafPath(root, virt);
      hide Builds, Tree, Path, Descends, Pmm.Left, Pmm.AllOnMap, Prefixes;
      var pml3, p3 := NextLevelOrAlloc(root, p[0], flags, n);
      ghost var b := Now();
      var pml2, p2 := NextLevelOrAlloc(pml3, p[1], flags, Child(n, p[0]));
      ghost var c, p1 := Now(), [];
      pml1, p1 := NextLevelOrAlloc(pml2, p[2], flags, Child(Child(n, p[0]), p[1]));
      BuildsThree(a, b, c, Now(), root, virt);
      pages := p3 + p2 + p1;
      if old(Pmm.AllOnMap(pmm.Now())) {
        ThreeStepsDown(a, b, c, Now(), root, p, flags, p3, pml3, p2, pml2, p1, pml1);
      }
    }

    /** Maps one page. It succeeds exactly when there are frames for the tables that are missing on
        the way, and is then exactly one update of the flat map. */
    method MapPage(root: nat, virt: nat, phys: nat, flags: nat)
      requires Valid() && flags <= 0x1ff && flags % 2 == 1
      requires good ==> Node(root, []) in tables
      modifies this, pmm`top, pmm.bmp.buf
      ensures Valid() && (good ==> old(good)) && old(pmm.top) <= pmm.top
      ensures MapsPage(old(Now()), Now(), root, virt, Or(phys, flags))
      ensures good ==> Node(root, []) in tables
      // with no table at page 0 and no address from behind the map, one frame too few does no harm
      ensures old(good && Pmm.AllOnMap(pmm.Now()) && 0 !in mem) ==>
                (KeepsTree(old(tables), mem, pmm.top) <==>
                 |Unbuilt(old(tables.Keys), root, Prefixes(virt))| <= old(Funds()).supply + 1)
    {
      hide Tree, Builds, MapsPage, Path, Slot, Or, Prefixes, Unbuilt, Pmm.Left, DescendsTo, KeepsTree, Store, Present,
           Pmm.AllOnMap;
      var pml1, pages := LeafTable(root, virt, flags);
      var entry := Or(phys, flags);
      OrOfOdd(phys, flags);
      ghost var a, b := old(Now()), Now();
      if old(good && Pmm.AllOnMap(pmm.Now()) && 0 !in mem) {
        TreeIsKept(a, b, root, virt, entry, flags, pages, pml1);
      }
      MapsLeaf(a, b, root, virt, entry, pml1);
      mem := Store(mem, pml1, Slot(virt), entry);
    }

    /** A new address space: vmm_init and vmm_init_pml up to their mappings. */
    method NewSpace() returns (pml: nat)
      requires Valid()
      modifies this, pmm`top, pmm.bmp.buf
      ensures Valid() && (good ==> old(good)) && old(pmm.top) <= pmm.top
      ensures Spends(old(Funds()), Funds(), pml, {[]}, 1)
      ensures good ==> Node(pml, []) !in old(tables) && tables == old(tables)[Node(pml, []) := pml]
      ensures good ==> SameWalks(old(mem), mem, Spaces(old(tables))) && forall v :: Walk(mem, pml, v) == None
      ensures good ==> Load(mem, pml, 511) == pml && forall n :: n in old(tables) ==> n.root != pml
    {
      hide Walk, Tree, Pmm.Left, Nodes, SameWalks, Pmm.AllOnMap;
      var page, ok := Frame();
      OneNode(page);
      if good && ok {
        SpaceAdded(mem, tables, old(pmm.top), page, pmm.top);
        tables := tables[Node(page, []) := page];
      }
      good := good && ok;
      mem := Store(Cleared(mem, page), page, 511, page);
      pml := page;
    }

    /** user_virt_map, and with kernel flags the heap loop of map_kernel: each page of the range
        gets a frame of its own. */
    method MapFrames(root: nat, base: nat, pages: nat, flags: nat) returns (ghost frames: seq<nat>)
      requires Valid() && flags <= 0x1ff && flags % 2 == 1
      requires good ==> Node(root, []) in tables
      modifies this, pmm`top, pmm.bmp.buf
      ensures Valid() && (good ==> old(good) && Node(root, []) in tables) && old(pmm.top) <= pmm.top
      ensures |frames| == pages && MapsFrames(old(Now()), Now(), root, base, flags, frames)
    {
      hide MapsFrames, Pmm.Left, Tree;
      frames := [];
      var i := 0;
      StartsMapping(Now(), root, base, flags);
      while i < pages
        invariant i <= pages && |frames| == i
        invariant Valid() && (good ==> old(good) && Node(root, []) in tables) && old(pmm.top) <= pmm.top
        invariant MapsFrames(old(Now()), Now(), root, base, flags, frames)
      {
        frames := MapOneFrame(root, base, i, flags, frames, old(Now()));
        i := i + 1;
      }
    }

    method MapOneFrame(root: nat, base: nat, i: nat, flags: nat, ghost frames: seq<nat>, ghost start: Snapshot)
      returns (ghost more: seq<nat>)
      requires Valid() && flags <= 0x1ff && flags % 2 == 1 && |frames| == i && start.top <= pmm.top
      requires good ==> Node(root, []) in tables
      requires MapsFrames(start, Now(), root, base, flags, frames)
      modifies this, pmm`top, pmm.bmp.buf
      ensures Valid() && (good ==> old(good) && Node(root, []) in tables) && old(pmm.top) <= pmm.top
      ensures |more| == i + 1 && MapsFrames(start, Now(), root, base, flags, more)
    {
      hide Takes, MapsFrames, MapsPage, Tree, Pmm.Left, Or, Pmm.AllOnMap, KeepsTree, Unbuilt, Prefixes;
      ghost var before := Now();
      var frame, ok := Frame();
      good := good && ok;
      ghost var taken := Now();
      TakesFrame(before.funds, taken.funds, root);
      if good {
        TreesStayBelow(mem, tables, before.top, pmm.top);
      }
      MapPage(root, U64(base + i * PAGE), frame, flags);
      more := frames + [frame];
      MapsNextFrame(start, before, taken, Now(), root, base, flags, frames, frame);
    }

    /** mmap and mmap_current: maps each page of a range to its own address, the flags or-ed on. */
    method MapIdentity(root: nat, base: nat, pages: nat) returns (ghost entries: seq<nat>)
      requires Valid()
      requires good ==> Node(root, []) in tables
      modifies this, pmm`top, pmm.bmp.buf
      ensures Valid() && (good ==> old(good)) && old(pmm.top) <= pmm.top && |entries| == pages
      ensures forall i :: 0 <= i < pages ==> entries[i] == Or(U64(base + i * PAGE), KERNEL_ACCESS)
      ensures MapsEntries(old(Now()), Now(), root, base, entries)
    {
      hide MapsEntries, MapsPage, Tree, Pmm.Left, Pmm.AllOnMap, KeepsTree, Unbuilt, Prefixes, Or;
      entries := [];
      StartsEntries(Now(), root, base);
      var i := 0;
      while i < pages
        invariant i <= pages && |entries| == i
        invariant Valid() && (good ==> old(good) && Node(root, []) in tables) && old(pmm.top) <= pmm.top
        invariant forall k :: 0 <= k < i ==> entries[k] == Or(U64(base + k * PAGE), KERNEL_ACCESS)
        invariant MapsEntries(old(Now()), Now(), root, base, entries)
      {
        ghost var before := Now();
        var at := U64(base + i * PAGE);
        MapPage(root, at, at, KERNEL_ACCESS);
        MapsNextEntry(old(Now()), before, Now(), root, base, entries, Or(at, KERNEL_ACCESS));
        entries := entries + [Or(at, KERNEL_ACCESS)];
        i := i + 1;
      }
    }

    /** One map_page call of map_spec. */
    method MapKernelPage(root: nat, virt: nat, page: nat, ghost start: Snapshot, ghost e: Extent, ghost f: Extent)
      requires Valid() && start.top <= pmm.top && Extends(e, f, virt, page)
      requires good ==> Node(root, []) in tables
      requires MapsExtent(start, Now(), root, e)
      modifies this, pmm`top, pmm.bmp.buf
      ensures Valid() && (good ==> old(good) && Node(root, []) in tables) && old(pmm.top) <= pmm.top
      ensures MapsExtent(start, Now(), root, f)
    {
      hide MapsExtent, MapsPage, Tree, Pmm.Left, Pmm.AllOnMap, KeepsTree, Unbuilt, Prefixes, Or, Extends;
      ghost var before := Now();
      OrFlags(page * PAGE, KERNEL_ACCESS);
      MapPage(root, virt, page * PAGE, KERNEL_ACCESS);
      MapsMoreOfTheKernel(start, before, Now(), root, virt, page, e, f);
    }

    /** map_spec: the direct map and identity map of 4 GiB, then 2 GiB at the kernel's offset. */
    method MapSpec(root: nat)
      requires Valid()
      requires good ==> Node(root, []) in tables
      modifies this, pmm`top, pmm.bmp.buf
      ensures Valid() && (good ==> old(good) && Node(root, []) in tables) && old(pmm.top) <= pmm.top
      ensures MapsExtent(old(Now()), Now(), root, ALL_MAPPED)
    {
      hide MapsExtent, Tree, Pmm.Left, PageOf;
      StartsExtent(Now(), root);
      var k := 0;
      while k < LOW_PAGES
        invariant k <= LOW_PAGES
        invariant Valid() && (good ==> old(good) && Node(root, []) in tables) && old(pmm.top) <= pmm.top
        invariant MapsExtent(old(Now()), Now(), root, Extent(k, k, 0))
      {
        KernelPages(k);
        MapKernelPage(root, U64(MEM_PHYS_OFFSET + k * PAGE), k, old(Now()), Extent(k, k, 0), Extent(k + 1, k, 0));
        MapKernelPage(root, k * PAGE, k, old(Now()), Extent(k + 1, k, 0), Extent(k + 1, k + 1, 0));
        k := k + 1;
      }
      k := 0;
      while k < KERN_PAGES
        invariant k <= KERN_PAGES
        invariant Valid() && (good ==> old(good) && Node(root, []) in tables) && old(pmm.top) <= pmm.top
        invariant MapsExtent(old(Now()), Now(), root, ALL_MAPPED.(kern := k))
      {
        KernelPages(k);
        MapKernelPage(root, U64(MEM_KERN_OFFSET + k * PAGE), k, old(Now()),
                      ALL_MAPPED.(kern := k), ALL_MAPPED.(kern := k + 1));
        k := k + 1;
      }
    }

    /** vmm_init: the kernel's address space, described page by page, when the allocator has the
        frames it takes. */
    method VmmInit() returns (pml: nat, ghost heap: seq<nat>)
      requires Valid()
      modifies this, pmm`top, pmm.bmp.buf
      ensures Valid() && |heap| == HEAP_PAGES
      ensures good <==> old(good) && BootCost() <= old(Funds()).supply
      ensures good ==> Node(pml, []) in tables && OwnFrames(heap, tables, old(pmm.top), pmm.top)
      ensures good ==> forall v :: Walk(mem, pml, v) == KernelSpace(heap, v)
      ensures good ==> SameWalks(old(mem), mem, Spaces(old(tables)))
      // the last top-level slot, set to the table's own address first, ends up leading elsewhere
      ensures good ==> Present(Load(mem, pml, 511)) && Target(Load(mem, pml, 511)) != pml
    {
      hide BootCost, Pmm.Left, Walk, KernelPaths, PathsOf, Tree, MapsKernel, MapsRange, OwnFrames, Takes, Spends,
           KernelSpace, Present, Target, Load, Entries, Pmm.AllOnMap;
      pml := NewSpace();
      ghost var a := Now();
      MapSpec(pml);
      ghost var b := Now();
      heap := MapFrames(pml, KERNEL_HEAP_LOW, HEAP_PAGES, KERNEL_ACCESS);
      BootTakes(old(Funds()), a.funds, b.funds, Funds(), pml);
      if good {
        GrowthKeepsSpaces(a.tables, b.tables, a.top);
        VmmInitMap(old(mem), a.mem, b.mem, mem, Spaces(old(tables)), Spaces(a.tables), pml, heap);
        LastSlotIsTaken(mem, tables, pmm.top, pml, heap);
        OwnFramesSince(heap, tables, old(pmm.top), b.top, pmm.top);
      }
    }
  }
}
