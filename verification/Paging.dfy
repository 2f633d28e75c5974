/** Four-level page tables in physical memory, and the flat page map they stand for
    (Intel SDM Volume 3A, section 4.5). */
module Paging {
  import opened Arith

  const ENTRIES: nat := 512
  const PAGES_48: nat := 0x10_0000_0000  // pages in a 48-bit address space

  /** Memory in use as page tables: page address to 512 entries. */
  type Memory = map<nat, seq<nat>>

  /** A table, named by its address space and the indices that lead to it. */
  datatype Node = Node(root: nat, path: seq<nat>)

  function Child(n: Node, i: nat): Node {
    Node(n.root, n.path + [i])
  }

  // ----- addresses -----

  function Path(virt: nat): (p: seq<nat>)
    ensures |p| == 3 && forall i :: i in p ==> i < ENTRIES
  {
    [virt / 0x80_0000_0000 % ENTRIES, virt / 0x4000_0000 % ENTRIES, virt / 0x20_0000 % ENTRIES]
  }

  function Slot(virt: nat): (i: nat)
    ensures i < ENTRIES
  {
    virt / 0x1000 % ENTRIES
  }

  /** The 48-bit page number of an address. */
  function PageOf(virt: nat): nat {
    virt / PAGE % PAGES_48
  }

  lemma IndicesNameThePage(v: nat, w: nat)
    ensures PageOf(v) == PageOf(w) <==> Path(v) == Path(w) && Slot(v) == Slot(w)
  {
    IndicesAreDigits(v);
    IndicesAreDigits(w);
    assert Path(v) == Path(w) <==> Path(v)[0] == Path(w)[0] && Path(v)[1] == Path(w)[1] && Path(v)[2] == Path(w)[2];
  }

  lemma IndicesAreDigits(v: nat)
    ensures PageOf(v) == ((Path(v)[0] * 512 + Path(v)[1]) * 512 + Path(v)[2]) * 512 + Slot(v)
  {
    PathDigits(v);
    hide Path, Slot;
    FourDigits(v / PAGE);
  }

  lemma PathDigits(v: nat)
    ensures var p := v / PAGE;
            && Path(v) == [p / 512 / 512 / 512 % 512, p / 512 / 512 % 512, p / 512 % 512]
            && Slot(v) == p % 512
  {
    DivTwice(v, PAGE, 512);
    DivTwice(v, 0x20_0000, 512);
    DivTwice(v, 0x4000_0000, 512);
  }

  lemma FourDigits(p: nat)
    ensures p % PAGES_48 ==
            ((p / 512 / 512 / 512 % 512 * 512 + p / 512 / 512 % 512) * 512 + p / 512 % 512) * 512 + p % 512
  {
    var q := p / 512;
    var r := q / 512;
    var t := r / 512;
    var u, a, b, c, d := t / 512, t % 512, r % 512, q % 512, p % 512;
    assert p == 512 * q + d;
    assert q == 512 * r + c;
    assert r == 512 * t + b;
    assert t == 512 * u + a;
    LowPart(u, ((a * 512 + b) * 512 + c) * 512 + d);
  }

  lemma LowPart(u: nat, x: nat)
    requires x < PAGES_48
    ensures (u * PAGES_48 + x) % PAGES_48 == x
  {
  }

  // ----- entries -----

  predicate Present(entry: nat) {
    entry % 2 == 1
  }

  /** `entry & ~0x1ff`: the table an entry points at. */
  function Target(entry: nat): nat {
    entry - entry % 0x200
  }

  /** Nine flag bits is all the decoding mask leaves room for. */
  lemma TargetsSurviveNineFlagBits(page: nat, flags: nat)
    requires page % PAGE == 0 && flags < PAGE
    ensures Target(page + flags) == page <==> flags <= 0x1ff
  {
  }

  /** A read of page memory; what lies outside the tables is not part of this model. */
  function Load(mem: Memory, page: nat, i: nat): nat {
    if page in mem && i < |mem[page]| then mem[page][i] else 0
  }

  function Store(mem: Memory, page: nat, i: nat, entry: nat): Memory {
    if page in mem && i < |mem[page]| then
      var table: seq<nat> := mem[page][i := entry];
      mem[page := table]
    else mem
  }

  function Cleared(mem: Memory, page: nat): Memory {
    mem[page := seq(ENTRIES, _ => 0)]
  }

  // ----- the walk -----

  function TableAt(mem: Memory, table: nat, path: seq<nat>): Option<nat>
    decreases |path|
  {
    if path == [] then Some(table)
    else
      var entry := Load(mem, table, path[0]);
      if Present(entry) then TableAt(mem, Target(entry), path[1..]) else None
  }

  /** The present leaf entry the processor finds for `virt`, if any. */
  function Walk(mem: Memory, root: nat, virt: nat): Option<nat> {
    match TableAt(mem, root, Path(virt))
    case None => None
    case Some(t) =>
      var entry := Load(mem, t, Slot(virt));
      if Present(entry) then Some(entry) else None
  }

  // ----- the invariant -----

  /** Entry `i` of table `n` is present exactly when that child table exists, and points at it. */
  ghost predicate Linked(mem: Memory, tables: map<Node, nat>, n: Node, i: nat)
    requires n in tables
  {
    var entry := Load(mem, tables[n], i);
    && (Present(entry) <==> Child(n, i) in tables)
    && (Present(entry) ==> Target(entry) == tables[Child(n, i)])
  }

  ghost predicate Placed(mem: Memory, n: Node, page: nat, top: nat) {
    && |n.path| <= 3
    && page % PAGE == 0 && page + PAGE <= top
    && page in mem && |mem[page]| == ENTRIES
    && (n.path == [] ==> page == n.root)
  }

  ghost predicate Rooted(tables: map<Node, nat>, n: Node) {
    n.path != [] ==> Node(n.root, n.path[..|n.path| - 1]) in tables
  }

  ghost predicate Apart(tables: map<Node, nat>, n: Node, m: Node)
    requires n in tables && m in tables
  {
    tables[n] == tables[m] ==> n == m
  }

  /** The tables form trees that share no page, below the allocator's floor `top`. */
  ghost predicate Tree(mem: Memory, tables: map<Node, nat>, top: nat) {
    && (forall n {:trigger Placed(mem, n, tables[n], top)} :: n in tables ==> Placed(mem, n, tables[n], top))
    && (forall n {:trigger Rooted(tables, n)} :: n in tables ==> Rooted(tables, n))
    && (forall n, m {:trigger Apart(tables, n, m)} :: n in tables && m in tables ==> Apart(tables, n, m))
    && (forall n, i {:trigger Linked(mem, tables, n, i)} ::
          n in tables && |n.path| < 3 && 0 <= i < ENTRIES ==> Linked(mem, tables, n, i))
  }

  lemma ChildrenDiffer(n: Node, i: nat, m: Node, j: nat)
    ensures Child(n, i) == Child(m, j) <==> n == m && i == j
    ensures Child(n, i).path[..|Child(n, i).path| - 1] == n.path
  {
    assert Child(n, i).path[..|n.path|] == n.path && Child(m, j).path[..|m.path|] == m.path;
    assert Child(n, i).path[|n.path|] == i && Child(m, j).path[|m.path|] == j;
  }

  /** No two present entries above the leaf level ever point at the same table page. */
  lemma NoSharing(mem: Memory, tables: map<Node, nat>, top: nat, n: Node, i: nat, m: Node, j: nat)
    requires Tree(mem, tables, top)
    requires n in tables && |n.path| < 3 && i < ENTRIES && Present(Load(mem, tables[n], i))
    requires m in tables && |m.path| < 3 && j < ENTRIES && Present(Load(mem, tables[m], j))
    requires Target(Load(mem, tables[n], i)) == Target(Load(mem, tables[m], j))
    ensures n == m && i == j
  {
    assert Linked(mem, tables, n, i) && Linked(mem, tables, m, j);
    assert Apart(tables, Child(n, i), Child(m, j));
    ChildrenDiffer(n, i, m, j);
  }

  lemma TreesStayBelow(mem: Memory, tables: map<Node, nat>, top: nat, top': nat)
    requires Tree(mem, tables, top) && top <= top'
    ensures Tree(mem, tables, top')
  {
    forall n | n in tables
      ensures Placed(mem, n, tables[n], top')
    {
      assert Placed(mem, n, tables[n], top);
    }
  }

  /** No table lies on the page. */
  ghost predicate Unused(tables: map<Node, nat>, page: nat) {
    forall n {:trigger tables[n]} :: n in tables ==> tables[n] != page
  }

  lemma NewPagesAreUnused(mem: Memory, tables: map<Node, nat>, top: nat, page: nat)
    requires Tree(mem, tables, top) && top <= page
    ensures Unused(tables, page)
  {
    forall n | n in tables
      ensures tables[n] != page
    {
      assert Placed(mem, n, tables[n], top);
    }
  }

  // ----- walking a tree -----

  lemma {:induction false} AncestorsExist(tables: map<Node, nat>, n: Node, k: nat)
    requires forall m :: m in tables ==> Rooted(tables, m)
    requires n in tables && k <= |n.path|
    ensures Node(n.root, n.path[..k]) in tables
    decreases |n.path|
  {
    if k == |n.path| {
      assert n.path[..k] == n.path;
    } else {
      var up := Node(n.root, n.path[..|n.path| - 1]);
      AncestorsExist(tables, up, k);
      assert up.path[..k] == n.path[..k];
    }
  }

  /** Following indices in memory reaches a table exactly when the tree has that node. */
  lemma {:induction false} TableAtFindsNodes(mem: Memory, tables: map<Node, nat>, top: nat, n: Node, path: seq<nat>)
    requires Tree(mem, tables, top) && n in tables
    requires |n.path| + |path| <= 3 && forall i :: i in path ==> i < ENTRIES
    ensures var m := Node(n.root, n.path + path);
            TableAt(mem, tables[n], path) == if m in tables then Some(tables[m]) else None
    decreases |path|
  {
    if path == [] {
      assert n.path + path == n.path;
    } else {
      var i := path[0];
      assert i in path && Placed(mem, n, tables[n], top);
      assert Linked(mem, tables, n, i);
      assert n.path + path == Child(n, i).path + path[1..];
      if Child(n, i) in tables {
        assert forall k :: k in path[1..] ==> k in path;
        TableAtFindsNodes(mem, tables, top, Child(n, i), path[1..]);
      } else if Node(n.root, n.path + path) in tables {
        assert (n.path + path)[..|n.path| + 1] == n.path + [i];
        AncestorsExist(tables, Node(n.root, n.path + path), |n.path| + 1);
      }
    }
  }

  /** The walk in terms of the tree. */
  lemma WalkOfTree(mem: Memory, tables: map<Node, nat>, top: nat, root: nat, virt: nat)
    requires Tree(mem, tables, top) && Node(root, []) in tables
    ensures var leaf := Node(root, Path(virt));
            Walk(mem, root, virt) ==
            if leaf in tables && Present(Load(mem, tables[leaf], Slot(virt)))
            then Some(Load(mem, tables[leaf], Slot(virt)))
            else None
  {
    assert Placed(mem, Node(root, []), tables[Node(root, [])], top);
    TableAtFindsNodes(mem, tables, top, Node(root, []), Path(virt));
    assert [] + Path(virt) == Path(virt);
  }

  // ----- the two ways memory changes -----

  /** Hanging a cleared fresh page below an absent entry keeps the tree and every walk. */
  lemma LinkKeepsWalks(mem: Memory, tables: map<Node, nat>, top: nat, n: Node, i: nat, page: nat, flags: nat, top': nat)
    requires Tree(mem, tables, top) && n in tables && |n.path| < 3 && i < ENTRIES
    requires !Present(Load(mem, tables[n], i))
    requires Unused(tables, page) && page % PAGE == 0 && page + PAGE <= top' && top <= top'
    requires flags <= 0x1ff && flags % 2 == 1
    ensures var mem' := Store(Cleared(mem, page), tables[n], i, page + flags);
            var tables' := tables[Child(n, i) := page];
            && Tree(mem', tables', top')
            && forall r, v :: Node(r, []) in tables ==> Walk(mem', r, v) == Walk(mem, r, v)
  {
    var mem' := Store(Cleared(mem, page), tables[n], i, page + flags);
    var tables' := tables[Child(n, i) := page];
    assert Linked(mem, tables, n, i);
    LinkKeepsTree(mem, tables, top, n, i, page, flags, top');
    forall r, v | Node(r, []) in tables
      ensures Walk(mem', r, v) == Walk(mem, r, v)
    {
      WalkOfTree(mem, tables, top, r, v);
      WalkOfTree(mem', tables', top', r, v);
      LinkKeepsLeaves(mem, tables, top, n, i, page, flags, Node(r, Path(v)), Slot(v));
    }
  }

  lemma LinkKeepsLeaves(mem: Memory, tables: map<Node, nat>, top: nat, n: Node, i: nat, page: nat, flags: nat,
                        leaf: Node, j: nat)
    requires Tree(mem, tables, top) && n in tables && |n.path| < 3 && i < ENTRIES
    requires Child(n, i) !in tables && Unused(tables, page) && |leaf.path| == 3 && j < ENTRIES
    ensures var mem' := Store(Cleared(mem, page), tables[n], i, page + flags);
            && (leaf in tables ==> Load(mem', tables[leaf], j) == Load(mem, tables[leaf], j))
            && (leaf == Child(n, i) ==> Load(mem', page, j) == 0)
  {
    assert Placed(mem, n, tables[n], top);
    if leaf in tables {
      assert Placed(mem, leaf, tables[leaf], top) && Apart(tables, leaf, n);
    }
  }

  lemma LinkKeepsTree(mem: Memory, tables: map<Node, nat>, top: nat, n: Node, i: nat, page: nat, flags: nat, top': nat)
    requires Tree(mem, tables, top) && n in tables && |n.path| < 3 && i < ENTRIES
    requires Child(n, i) !in tables
    requires Unused(tables, page) && page % PAGE == 0 && page + PAGE <= top' && top <= top'
    requires flags <= 0x1ff && flags % 2 == 1
    ensures Tree(Store(Cleared(mem, page), tables[n], i, page + flags), tables[Child(n, i) := page], top')
  {
    var c := Child(n, i);
    var mem' := Store(Cleared(mem, page), tables[n], i, page + flags);
    var tables' := tables[c := page];
    ChildrenDiffer(n, i, n, i);
    forall m | m in tables'
      ensures Placed(mem', m, tables'[m], top') && Rooted(tables', m)
    {
      if m in tables {
        assert Placed(mem, m, tables[m], top) && Rooted(tables, m);
      }
    }
    forall m, m' | m in tables' && m' in tables'
      ensures Apart(tables', m, m')
    {
      if m in tables {
        assert Placed(mem, m, tables[m], top);
      }
      if m' in tables {
        assert Placed(mem, m', tables[m'], top);
      }
      if m in tables && m' in tables {
        assert Apart(tables, m, m');
      }
    }
    forall m, j | m in tables' && |m.path| < 3 && 0 <= j < ENTRIES
      ensures Linked(mem', tables', m, j)
    {
      LinkAddsOneLink(mem, tables, top, n, i, page, flags, m, j);
    }
  }

  lemma FlaggedEntry(page: nat, flags: nat)
    requires page % PAGE == 0 && flags <= 0x1ff && flags % 2 == 1
    ensures Target(page + flags) == page && Present(page + flags) && !Present(0)
  {
    TargetsSurviveNineFlagBits(page, flags);
    hide Target;
    Quotient(page / PAGE * 2048 + flags / 2, 1, 2);
  }

  lemma LinkAddsOneLink(mem: Memory, tables: map<Node, nat>, top: nat, n: Node, i: nat, page: nat, flags: nat,
                        m: Node, j: nat)
    requires Tree(mem, tables, top) && n in tables && |n.path| < 3 && i < ENTRIES
    requires Child(n, i) !in tables
    requires Unused(tables, page) && page % PAGE == 0
    requires flags <= 0x1ff && flags % 2 == 1
    requires (m in tables || m == Child(n, i)) && |m.path| < 3 && j < ENTRIES
    ensures Linked(Store(Cleared(mem, page), tables[n], i, page + flags), tables[Child(n, i) := page], m, j)
  {
    hide Target, Present;
    assert Placed(mem, n, tables[n], top);
    assert Target(page + flags) == page && Present(page + flags) && !Present(0) by {
      FlaggedEntry(page, flags);
    }
    ChildrenDiffer(n, i, m, j);
    if m == Child(n, i) {
      ChildrenDiffer(m, j, m, j);
      assert Child(m, j) in tables ==> Rooted(tables, Child(m, j));
    } else {
      assert Linked(mem, tables, m, j) && Placed(mem, m, tables[m], top) && Apart(tables, m, n);
      assert Present(Load(mem, tables[m], j)) ==> Placed(mem, Child(m, j), tables[Child(m, j)], top);
    }
  }

  /** Writing a leaf entry updates the flat map at one page and nowhere else. */
  lemma LeafUpdatesOnePage(mem: Memory, tables: map<Node, nat>, top: nat, root: nat, virt: nat, entry: nat)
    requires Tree(mem, tables, top) && Node(root, []) in tables && Node(root, Path(virt)) in tables
    requires Present(entry)
    ensures var mem' := Store(mem, tables[Node(root, Path(virt))], Slot(virt), entry);
            && Tree(mem', tables, top)
            && forall r, v :: Node(r, []) in tables ==>
                 Walk(mem', r, v) == if r == root && PageOf(v) == PageOf(virt) then Some(entry) else Walk(mem, r, v)
  {
    var leaf := Node(root, Path(virt));
    var mem' := Store(mem, tables[leaf], Slot(virt), entry);
    assert Placed(mem, leaf, tables[leaf], top);
    forall m | m in tables
      ensures Placed(mem', m, tables[m], top)
    {
      assert Placed(mem, m, tables[m], top);
    }
    forall m, j | m in tables && |m.path| < 3 && 0 <= j < ENTRIES
      ensures Linked(mem', tables, m, j)
    {
      assert Linked(mem, tables, m, j) && Apart(tables, m, leaf);
    }
    forall r, v | Node(r, []) in tables
      ensures Walk(mem', r, v) == if r == root && PageOf(v) == PageOf(virt) then Some(entry) else Walk(mem, r, v)
    {
      WalkOfTree(mem, tables, top, r, v);
      WalkOfTree(mem', tables, top, r, v);
      IndicesNameThePage(v, virt);
      assert Node(r, Path(v)) in tables ==> Apart(tables, Node(r, Path(v)), leaf);
    }
  }

  /** A fresh top-level table, its last slot holding its own address without the present bit:
      no page is mapped in the new space, and no other space notices. */
  lemma NewRootIsEmpty(mem: Memory, tables: map<Node, nat>, top: nat, page: nat, top': nat)
    requires Tree(mem, tables, top)
    requires top <= page && page % PAGE == 0 && page + PAGE <= top'
    ensures var mem' := Store(Cleared(mem, page), page, 511, page);
            && Tree(mem', tables[Node(page, []) := page], top')
            && (forall v :: Walk(mem', page, v) == None)
            && forall r, v :: Node(r, []) in tables ==> Walk(mem', r, v) == Walk(mem, r, v)
    ensures Node(page, []) !in tables
  {
    var mem' := Store(Cleared(mem, page), page, 511, page);
    var tables' := tables[Node(page, []) := page];
    forall m | m in tables
      ensures tables[m] != page && m.root != page && Placed(mem', m, tables[m], top')
    {
      assert Placed(mem, m, tables[m], top) && Rooted(tables, m);
      AncestorsExist(tables, m, 0);
      assert Placed(mem, Node(m.root, []), tables[Node(m.root, [])], top);
    }
    forall m | m in tables'
      ensures Rooted(tables', m)
    {
      assert m in tables ==> Rooted(tables, m);
    }
    forall m, m' | m in tables' && m' in tables'
      ensures Apart(tables', m, m')
    {
      assert m in tables && m' in tables ==> Apart(tables, m, m');
    }
    forall m, j | m in tables' && |m.path| < 3 && 0 <= j < ENTRIES
      ensures Linked(mem', tables', m, j)
    {
      assert m in tables ==> Linked(mem, tables, m, j);
    }
    forall r, v | Node(r, []) in tables'
      ensures Walk(mem', r, v) == if r == page then None else Walk(mem, r, v)
    {
      if r == page {
        assert !Present(Load(mem', page, Path(v)[0]));
      } else {
        WalkOfTree(mem, tables, top, r, v);
        WalkOfTree(mem', tables', top', r, v);
      }
    }
    forall v
      ensures Walk(mem', page, v) == None
    {
      assert Node(page, []) in tables';
    }
  }

  // ----- ranges of pages -----

  /** The last index among the `n` pages from `base` on whose page number is `page`, if any. */
  function Hit(base: nat, n: nat, page: nat): (r: Option<nat>)
    ensures r.Some? ==> r.value < n && PageOf(U64(base + r.value * PAGE)) == page
    ensures r.None? ==> forall i :: 0 <= i < n ==> PageOf(U64(base + i * PAGE)) != page
  {
    if n == 0 then None
    else if PageOf(U64(base + (n - 1) * PAGE)) == page then Some(n - 1)
    else Hit(base, n - 1, page)
  }

  lemma PageOfOffset(base: nat, i: nat)
    ensures PageOf(U64(base + i * PAGE)) == (base / PAGE + i) % PAGES_48
  {
    var x := base + i * PAGE;
    DivMod(base, PAGE);
    Quotient(base / PAGE + i, base % PAGE, PAGE);
    DivOfMod(x, PAGE, W64 / PAGE);
    ModOfMod(base / PAGE + i, 0x1_0000, PAGES_48);
  }

  lemma ModOfMod(x: nat, k: nat, n: nat)
    requires k > 0 && n > 0
    ensures k * n > 0 && x % (k * n) % n == x % n
  {
    var q := x / (k * n);
    DivMod(x, k * n);
    assert x == x % (k * n) + q * k * n;
    ModDrops(x % (k * n), q * k, n);
  }

  /** Up to the size of the address space, each page of a range is hit by its own index. */
  lemma HitsAreExact(base: nat, n: nat, i: nat)
    requires i < n <= PAGES_48
    ensures Hit(base, n, PageOf(U64(base + i * PAGE))) == Some(i)
  {
    var r := Hit(base, n, PageOf(U64(base + i * PAGE)));
    assert r.Some?;
    PageOfOffset(base, i);
    PageOfOffset(base, r.value);
    DistinctResidues(base / PAGE, i, r.value);
  }

  lemma NextPageIsNoHit(base: nat, n: nat)
    requires n < PAGES_48
    ensures Hit(base, n, PageOf(U64(base + n * PAGE))).None?
  {
    hide PageOf, U64;
    var page := PageOf(U64(base + n * PAGE));
    HitsAreExact(base, n + 1, n);
    if Hit(base, n, page).Some? {
      HitsAreExact(base, n + 1, Hit(base, n, page).value);
    }
  }

  lemma DistinctResidues(b: nat, i: nat, j: nat)
    requires i < PAGES_48 && j < PAGES_48 && (b + i) % PAGES_48 == (b + j) % PAGES_48
    ensures i == j
  {
  }
}
