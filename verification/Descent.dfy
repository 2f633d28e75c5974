/** The walk to a leaf table as the code performs it, failed allocations included: next_level_or_alloc
    takes NULL for the address of a table. */
module Descent {
  import opened Arith
  import opened Paging
  import opened Cost

  /** A frame stored in entry `i`, cleared as a table, and the flags or-ed onto the entry. */
  function WithTable(mem: Memory, table: nat, i: nat, flags: nat, page: nat): Memory {
    var stored := Store(mem, table, i, page);
    var cleared := Cleared(stored, page);
    Store(cleared, table, i, Load(cleared, table, i) + flags)
  }

  /** next_level_or_alloc, where `pages` are the pages the allocator still has. */
  function NextTable(mem: Memory, table: nat, i: nat, flags: nat, pages: seq<nat>): (Memory, nat, seq<nat>) {
    if Present(Load(mem, table, i)) then (mem, Target(Load(mem, table, i)), pages)
    else
      var page := if pages == [] then 0 else pages[0];
      var m := WithTable(mem, table, i, flags, page);
      (m, Target(Load(m, table, i)), if pages == [] then [] else pages[1..])
  }

  function Descend(mem: Memory, table: nat, path: seq<nat>, flags: nat, pages: seq<nat>): (Memory, nat, seq<nat>)
    decreases |path|
  {
    if path == [] then (mem, table, pages)
    else
      var (m, t, rest) := NextTable(mem, table, path[0], flags, pages);
      Descend(m, t, path[1..], flags, rest)
  }

  /** map_page on memory. */
  function Mapped(mem: Memory, root: nat, virt: nat, entry: nat, flags: nat, pages: seq<nat>): Memory {
    var (m, t, _) := Descend(mem, root, Path(virt), flags, pages);
    Store(m, t, Slot(virt), entry)
  }

  /** Running out of pages and being given page 0 is the same. */
  lemma {:induction false} NullIsPageZero(mem: Memory, table: nat, path: seq<nat>, flags: nat, pages: seq<nat>)
    ensures Descend(mem, table, path, flags, pages).0 == Descend(mem, table, path, flags, pages + [0]).0
    ensures Descend(mem, table, path, flags, pages).1 == Descend(mem, table, path, flags, pages + [0]).1
    decreases |path|
  {
    if path != [] {
      var (m, t, rest) := NextTable(mem, table, path[0], flags, pages);
      assert pages != [] ==> (pages + [0])[1..] == pages[1..] + [0];
      if pages != [] || Present(Load(mem, table, path[0])) {
        assert NextTable(mem, table, path[0], flags, pages + [0]) == (m, t, rest + [0]);
        NullIsPageZero(m, t, path[1..], flags, rest);
      } else {
        assert NextTable(mem, table, path[0], flags, pages + [0]) == (m, t, []);
      }
    }
  }

  // ----- when the tree survives -----

  /** Distinct pages fit for new tables. */
  ghost predicate Fit(pages: seq<nat>, tables: map<Node, nat>, top: nat) {
    && (forall k :: 0 <= k < |pages| ==> Unused(tables, pages[k]) && pages[k] % PAGE == 0 && pages[k] + PAGE <= top)
    && (forall j, k :: 0 <= j < k < |pages| ==> pages[j] != pages[k])
  }

  ghost predicate GrowsTo(tables: map<Node, nat>, more: map<Node, nat>) {
    forall n :: n in tables ==> n in more && more[n] == tables[n]
  }

  /** How many tables are missing on a path below `n`. */
  function Missing(tables: map<Node, nat>, n: Node, path: seq<nat>): (k: nat)
    ensures k <= |path|
    decreases |path|
  {
    if path == [] then 0
    else Missing(tables, Child(n, path[0]), path[1..]) + if Child(n, path[0]) in tables then 0 else 1
  }

  lemma NextOfTree(mem: Memory, tables: map<Node, nat>, top: nat, n: Node, i: nat, flags: nat, pages: seq<nat>)
    returns (more: map<Node, nat>)
    requires Tree(mem, tables, top) && n in tables && |n.path| < 3 && i < ENTRIES
    requires flags <= 0x1ff && flags % 2 == 1 && Fit(pages, tables, top)
    requires Child(n, i) in tables || pages != []
    ensures var (m, t, rest) := NextTable(mem, tables[n], i, flags, pages);
            && Tree(m, more, top) && GrowsTo(tables, more) && Child(n, i) in more && t == more[Child(n, i)]
            && rest == (if Child(n, i) in tables then pages else pages[1..]) && Fit(rest, more, top)
            && more == (if Child(n, i) in tables then tables else tables[Child(n, i) := pages[0]])
            && m.Keys == mem.Keys + (if Child(n, i) in tables then {} else {pages[0]})
            && forall q :: q in mem && q != tables[n] && (Child(n, i) !in tables ==> q != pages[0]) ==> m[q] == mem[q]
  {
    assert Linked(mem, tables, n, i) && Placed(mem, n, tables[n], top);
    if Child(n, i) in tables {
      more := tables;
    } else {
      var page := pages[0];
      more := tables[Child(n, i) := page];
      WithTableIsLink(mem, tables[n], i, flags, page);
      LinkKeepsTree(mem, tables, top, n, i, page, flags, top);
      TargetsSurviveNineFlagBits(page, flags);
    }
  }

  lemma WithTableIsLink(mem: Memory, table: nat, i: nat, flags: nat, page: nat)
    requires table in mem && i < |mem[table]| && table != page
    ensures WithTable(mem, table, i, flags, page) == Store(Cleared(mem, page), table, i, page + flags)
    ensures Load(WithTable(mem, table, i, flags, page), table, i) == page + flags
  {
    var row: seq<nat> := mem[table];
    assert row[i := page][i := page + flags] == row[i := page + flags];
  }

  /** With a page for every missing table the walk keeps the tree and ends at its leaf table. */
  lemma {:induction false} DescendBuilds(mem: Memory, tables: map<Node, nat>, top: nat, n: Node, path: seq<nat>,
                                         flags: nat, pages: seq<nat>)
    returns (more: map<Node, nat>)
    requires Tree(mem, tables, top) && n in tables && |n.path| + |path| <= 3 && forall i :: i in path ==> i < ENTRIES
    requires flags <= 0x1ff && flags % 2 == 1 && Fit(pages, tables, top)
    requires Missing(tables, n, path) <= |pages|
    ensures var (m, t, _) := Descend(mem, tables[n], path, flags, pages);
            var leaf := Node(n.root, n.path + path);
            Tree(m, more, top) && GrowsTo(tables, more) && leaf in more && t == more[leaf]
    decreases |path|
  {
    if path == [] {
      more := tables;
      assert n.path + path == n.path;
    } else {
      hide Tree, Fit, WithTable;
      var i := path[0];
      assert i in path && forall k :: k in path[1..] ==> k in path;
      var (m, t, rest) := NextTable(mem, tables[n], i, flags, pages);
      var next := NextOfTree(mem, tables, top, n, i, flags, pages);
      MissingAfter(mem, tables, top, n, path, next, pages);
      more := DescendBuilds(m, next, top, Child(n, i), path[1..], flags, rest);
      assert Child(n, i).path + path[1..] == n.path + path;
    }
  }

  /** Below a missing table everything is missing, whether the table is built or not. */
  lemma MissingAfter(mem: Memory, tables: map<Node, nat>, top: nat, n: Node, path: seq<nat>, next: map<Node, nat>,
                     pages: seq<nat>)
    requires Tree(mem, tables, top) && n in tables && path != []
    requires Child(n, path[0]) in tables || pages != []
    requires next == if Child(n, path[0]) in tables then tables else tables[Child(n, path[0]) := pages[0]]
    ensures Missing(next, Child(n, path[0]), path[1..]) == Missing(tables, Child(n, path[0]), path[1..])
    ensures Child(n, path[0]) !in tables ==> Missing(tables, Child(n, path[0]), path[1..]) == |path| - 1
  {
    var c := Child(n, path[0]);
    if c !in tables {
      assert forall m :: m in tables ==> Rooted(tables, m);
      AllMissing(tables, c, path[1..]);
      AllMissingBut(tables, c, path[1..], next);
    }
  }

  lemma {:induction false} AllMissing(tables: map<Node, nat>, c: Node, path: seq<nat>)
    requires (forall m :: m in tables ==> Rooted(tables, m)) && c !in tables
    ensures Missing(tables, c, path) == |path|
    decreases |path|
  {
    if path != [] {
      ChildrenDiffer(c, path[0], c, path[0]);
      assert Child(c, path[0]) in tables ==> Rooted(tables, Child(c, path[0]));
      AllMissing(tables, Child(c, path[0]), path[1..]);
    }
  }

  lemma {:induction false} AllMissingBut(tables: map<Node, nat>, c: Node, path: seq<nat>, next: map<Node, nat>)
    requires (forall m :: m in tables ==> Rooted(tables, m)) && c !in tables
    requires forall m :: m in next && |m.path| > |c.path| ==> m in tables
    ensures Missing(next, c, path) == |path|
    decreases |path|
  {
    if path != [] {
      var d := Child(c, path[0]);
      ChildrenDiffer(c, path[0], c, path[0]);
      assert d in tables ==> Rooted(tables, d);
      AllMissingBut(tables, d, path[1..], next);
    }
  }

  // ----- when it does not -----

  /** Page 0 as a table, with nothing in it but links to itself. */
  ghost predicate NullTable(mem: Memory, flags: nat) {
    0 in mem && |mem[0]| == ENTRIES && forall j :: 0 <= j < ENTRIES ==> mem[0][j] == 0 || mem[0][j] == flags
  }

  /** From page 0 on, without pages left, the walk stays on page 0. */
  lemma {:induction false} DescendFromNull(mem: Memory, path: seq<nat>, flags: nat)
    requires NullTable(mem, flags) && flags <= 0x1ff && flags % 2 == 1 && forall i :: i in path ==> i < ENTRIES
    ensures var (m, t, rest) := Descend(mem, 0, path, flags, []);
            && t == 0 && NullTable(m, flags) && m == mem[0 := m[0]]
            && (path != [] ==> Load(m, 0, path[|path| - 1]) == flags)
    decreases |path|
  {
    if path != [] {
      var i := path[0];
      assert i in path && forall k :: k in path[1..] ==> k in path;
      var (m, t, _) := NextTable(mem, 0, i, flags, []);
      assert t == 0 && NullTable(m, flags) && m == mem[0 := m[0]] && Load(m, 0, i) == flags;
      DescendFromNull(m, path[1..], flags);
      if |path| > 1 {
        assert path[1..][|path[1..]| - 1] == path[|path| - 1];
      }
    } else {
      assert mem == mem[0 := mem[0]];
    }
  }

  /** The same entries but for page 0. */
  ghost predicate SameButNull(m: Memory, m': Memory) {
    forall q, j {:trigger Load(m', q, j)} :: q != 0 ==> Load(m', q, j) == Load(m, q, j)
  }

  lemma TableAtFrom(m: Memory, table: nat, path: seq<nat>, d: nat, next: nat)
    requires 1 <= d <= |path| && Present(Load(m, table, path[0])) && Target(Load(m, table, path[0])) == next
    ensures TableAt(m, table, path[..d]) == TableAt(m, next, path[1..][..d - 1])
  {
    assert path[..d][1..] == path[1..][..d - 1];
  }

  ghost predicate Above(m: Memory, table: nat, path: seq<nat>, d: nat, page: nat) {
    exists j :: 1 <= j < d <= |path| && TableAt(m, table, path[..j]) == Some(page)
  }

  /** What a walk two tables short leaves: page 0 with a link to itself where the walk ended, and no
      other table changed that is not deeper than `n`. */
  ghost predicate EndsOnNull(mem: Memory, tables: map<Node, nat>, n: Node, path: seq<nat>, flags: nat, pages: seq<nat>,
                             m: Memory, t: nat)
    requires path != []
  {
    && t == 0 && NullTable(m, flags) && Load(m, 0, path[|path| - 1]) == flags
    && m.Keys == mem.Keys + (set p | p in pages) + {0}
    && forall y :: y in tables && |y.path| <= |n.path| && y != n ==>
         tables[y] in m && tables[y] in mem && m[tables[y]] == mem[tables[y]]
  }

  /** Two tables short, the walk passes through page 0 and goes on there: the `d`th table on the path is
      page 0, and all pages given out lie above it. */
  lemma {:induction false} DescendShares(mem: Memory, tables: map<Node, nat>, top: nat, n: Node, path: seq<nat>,
                                         flags: nat, pages: seq<nat>, m': Memory)
    returns (d: nat)
    requires Tree(mem, tables, top) && n in tables && |n.path| + |path| <= 3 && forall i :: i in path ==> i < ENTRIES
    requires flags <= 0x1ff && flags % 2 == 1 && Fit(pages, tables, top) && Unused(tables, 0) && 0 !in pages
    requires |pages| + 2 <= Missing(tables, n, path)
    requires SameButNull(Descend(mem, tables[n], path, flags, pages).0, m')
    ensures var (m, t, _) := Descend(mem, tables[n], path, flags, pages);
            EndsOnNull(mem, tables, n, path, flags, pages, m, t)
    ensures 1 <= d < |path| && TableAt(m', tables[n], path[..d]) == Some(0)
    ensures forall k :: 0 <= k < |pages| ==> Above(m', tables[n], path, d, pages[k])
    decreases |path|, 1
  {
    var i, c := path[0], Child(n, path[0]);
    assert i in path && forall k :: k in path[1..] ==> k in path;
    if c !in tables && pages == [] {
      DescendFromTheEnd(mem, tables, top, n, path, flags, m');
      d := 1;
    } else {
      d := DescendOneMore(mem, tables, top, n, path, flags, pages, m');
    }
  }

  lemma DescendFromTheEnd(mem: Memory, tables: map<Node, nat>, top: nat, n: Node, path: seq<nat>, flags: nat,
                          m': Memory)
    requires Tree(mem, tables, top) && n in tables && |n.path| + |path| <= 3 && forall i :: i in path ==> i < ENTRIES
    requires flags <= 0x1ff && flags % 2 == 1 && Unused(tables, 0) && |path| >= 2 && Child(n, path[0]) !in tables
    requires SameButNull(Descend(mem, tables[n], path, flags, []).0, m')
    ensures var (m, t, _) := Descend(mem, tables[n], path, flags, []);
            EndsOnNull(mem, tables, n, path, flags, [], m, t)
    ensures TableAt(m', tables[n], path[..1]) == Some(0)
  {
    var i := path[0];
    assert i in path && forall k :: k in path[1..] ==> k in path;
    assert Linked(mem, tables, n, i) && Placed(mem, n, tables[n], top);
    forall y | y in tables
      ensures tables[y] in mem && (y != n ==> tables[y] != tables[n])
    {
      assert Placed(mem, y, tables[y], top) && Apart(tables, y, n);
    }
    WithTableIsLink(mem, tables[n], i, flags, 0);
    var m1 := WithTable(mem, tables[n], i, flags, 0);
    assert NextTable(mem, tables[n], i, flags, []) == (m1, 0, []);
    DescendFromNull(m1, path[1..], flags);
    assert path[1..][|path[1..]| - 1] == path[|path| - 1];
    TableAtFrom(m', tables[n], path, 1, 0);
  }

  lemma DescendOneMore(mem: Memory, tables: map<Node, nat>, top: nat, n: Node, path: seq<nat>,
                       flags: nat, pages: seq<nat>, m': Memory)
    returns (d: nat)
    requires Tree(mem, tables, top) && n in tables && |n.path| + |path| <= 3 && forall i :: i in path ==> i < ENTRIES
    requires flags <= 0x1ff && flags % 2 == 1 && Fit(pages, tables, top) && Unused(tables, 0) && 0 !in pages
    requires |pages| + 2 <= Missing(tables, n, path) && (Child(n, path[0]) in tables || pages != [])
    requires SameButNull(Descend(mem, tables[n], path, flags, pages).0, m')
    ensures var (m, t, _) := Descend(mem, tables[n], path, flags, pages);
            EndsOnNull(mem, tables, n, path, flags, pages, m, t)
    ensures 1 <= d < |path| && TableAt(m', tables[n], path[..d]) == Some(0)
    ensures forall k :: 0 <= k < |pages| ==> Above(m', tables[n], path, d, pages[k])
    decreases |path|, 0
  {
    hide Tree, WithTable, NullTable, Placed, Apart, EndsOnNull, Fit, Missing, Above, TableAt, NextTable;
    var i, c := path[0], Child(n, path[0]);
    assert i in path && forall k :: k in path[1..] ==> k in path;
    var (m1, t1, rest) := NextTable(mem, tables[n], i, flags, pages);
    var next := NextOfTree(mem, tables, top, n, i, flags, pages);
    MissingAfter(mem, tables, top, n, path, next, pages);
    PartsOfTree(m1, next, top, n, i);
    PartsOfTree(mem, tables, top, n, i);
    OneStepIsMissing(tables, n, path);
    var d1 := DescendShares(m1, next, top, c, path[1..], flags, rest, m');
    d := d1 + 1;
    var (m, t, _) := Descend(m1, t1, path[1..], flags, rest);
    EndsHigher(mem, tables, top, n, path, flags, pages, m1, next, rest, m, t);
    assert Load(m', tables[n], i) == Load(m1, tables[n], i);
    TableAtFrom(m', tables[n], path, d, next[c]);
    forall k | 0 <= k < |pages|
      ensures Above(m', tables[n], path, d, pages[k])
    {
      AboveHigher(m', tables[n], path, d, next[c], pages, rest, k);
    }
  }

  lemma PartsOfTree(mem: Memory, tables: map<Node, nat>, top: nat, n: Node, i: nat)
    requires Tree(mem, tables, top) && n in tables && |n.path| < 3 && i < ENTRIES
    ensures Linked(mem, tables, n, i)
    ensures forall y :: y in tables ==> Placed(mem, y, tables[y], top) && Apart(tables, y, n)
  {
  }

  lemma OneStepIsMissing(tables: map<Node, nat>, n: Node, path: seq<nat>)
    requires path != []
    ensures Missing(tables, n, path) ==
            Missing(tables, Child(n, path[0]), path[1..]) + if Child(n, path[0]) in tables then 0 else 1
  {
  }

  lemma EndsHigher(mem: Memory, tables: map<Node, nat>, top: nat, n: Node, path: seq<nat>, flags: nat, pages: seq<nat>,
                   m1: Memory, next: map<Node, nat>, rest: seq<nat>, m: Memory, t: nat)
    requires |path| > 1 && n in tables && Fit(pages, tables, top)
    requires forall y :: y in tables ==> Placed(mem, y, tables[y], top) && Apart(tables, y, n)
    requires var c := Child(n, path[0]);
             && (c in tables || pages != [])
             && rest == (if c in tables then pages else pages[1..])
             && next == (if c in tables then tables else tables[c := pages[0]])
             && m1.Keys == mem.Keys + (if c in tables then {} else {pages[0]})
             && (forall q :: q in mem && q != tables[n] && (c !in tables ==> q != pages[0]) ==> m1[q] == mem[q])
             && EndsOnNull(m1, next, c, path[1..], flags, rest, m, t)
    ensures EndsOnNull(mem, tables, n, path, flags, pages, m, t)
    ensures tables[n] in m && tables[n] in m1 && m[tables[n]] == m1[tables[n]]
  {
    hide NullTable;
    var c := Child(n, path[0]);
    assert path[1..][|path[1..]| - 1] == path[|path| - 1];
    assert n != c && |c.path| == |n.path| + 1;
    forall y | y in tables && |y.path| <= |n.path| && y != n
      ensures tables[y] in m && tables[y] in mem && m[tables[y]] == mem[tables[y]]
    {
      assert Placed(mem, y, tables[y], top) && Apart(tables, y, n) && y != c && next[y] == tables[y];
    }
    assert next[n] == tables[n];
    assert c !in tables ==> pages == [pages[0]] + rest;
  }

  lemma AboveHigher(m: Memory, table: nat, path: seq<nat>, d: nat, next: nat, pages: seq<nat>, rest: seq<nat>, k: nat)
    requires 2 <= d <= |path| && Present(Load(m, table, path[0])) && Target(Load(m, table, path[0])) == next
    requires k < |pages| && (rest == pages || (rest == pages[1..] && pages[0] == next))
    requires forall i :: 0 <= i < |rest| ==> Above(m, next, path[1..], d - 1, rest[i])
    ensures Above(m, table, path, d, pages[k])
  {
    if rest != pages && k == 0 {
      TableAtFrom(m, table, path, 1, next);
    } else {
      var i := if rest == pages then k else k - 1;
      assert Above(m, next, path[1..], d - 1, rest[i]);
      var j :| 1 <= j < d - 1 && TableAt(m, next, path[1..][..j]) == Some(rest[i]);
      TableAtFrom(m, table, path, j + 1, next);
    }
  }

  /** Some tree without sharing holds the old tables where they were. */
  ghost predicate KeepsTree(tables: map<Node, nat>, m: Memory, top: nat) {
    exists more :: GrowsTo(tables, more) && Tree(m, more, top)
  }

  /** With page 0 reached twice there is none: the entry on page 0 leads either to page 0 again, or,
      where the mapping overwrote it, to a page that another table has or that is no table. */
  lemma NoTreeAround(mem: Memory, tables: map<Node, nat>, top: nat, root: nat, path: seq<nat>, slot: nat, entry: nat,
                     flags: nat, pages: seq<nat>, m: Memory, d: nat, more: map<Node, nat>)
    requires Tree(mem, tables, top) && Node(root, []) in tables && Unused(tables, 0) && mem.Keys == tables.Values
    requires |path| == 3 && (forall i :: i in path ==> i < ENTRIES) && flags % 2 == 1 && flags <= 0x1ff
    requires EndsOnNull(mem, tables, Node(root, []), path, flags, pages, m, 0) && Present(entry) && slot < ENTRIES
    requires var m' := Store(m, 0, slot, entry);
             && 1 <= d < 3 && TableAt(m', root, path[..d]) == Some(0)
             && forall k :: 0 <= k < |pages| ==> Above(m', root, path, d, pages[k])
    requires GrowsTo(tables, more)
    ensures !Tree(Store(m, 0, slot, entry), more, top)
  {
    var m' := Store(m, 0, slot, entry);
    if Tree(m', more, top) {
      var z, c := Node(root, path[..d]), Child(Node(root, path[..d]), path[2]);
      NodeOnPath(m', more, top, root, path, d, 0);
      LinkFromNull(m', more, top, z, path[2]);
      assert more[c] in tables.Values || more[c] in pages;
      forall y | y in tables
        ensures tables[y] != more[c]
      {
        NotAnOldTable(mem, tables, top, m', more, z, path[2], y);
      }
      forall k | 0 <= k < |pages|
        ensures pages[k] != more[c]
      {
        NotOnTheWay(m', more, top, root, path, d, path[2], pages[k]);
      }
    }
  }

  /** The table the link on page 0 leads to. */
  lemma LinkFromNull(m: Memory, more: map<Node, nat>, top: nat, z: Node, l: nat)
    requires Tree(m, more, top) && z in more && more[z] == 0 && |z.path| < 3 && l < ENTRIES && Present(Load(m, 0, l))
    ensures Child(z, l) in more && more[Child(z, l)] != 0 && more[Child(z, l)] in m
  {
    var c := Child(z, l);
    assert Linked(m, more, z, l) && Placed(m, c, more[c], top) && Apart(more, z, c);
  }

  lemma NotAnOldTable(mem: Memory, tables: map<Node, nat>, top: nat, m: Memory, more: map<Node, nat>, z: Node, l: nat,
                      y: Node)
    requires Tree(mem, tables, top) && Tree(m, more, top) && GrowsTo(tables, more) && Unused(tables, 0)
    requires y in tables && z in more && more[z] == 0 && Child(z, l) in more
    ensures tables[y] != more[Child(z, l)]
  {
    var c := Child(z, l);
    ChildrenDiffer(z, l, z, l);
    assert Apart(more, y, c) && (c in tables ==> Rooted(tables, c));
  }

  lemma NotOnTheWay(m: Memory, more: map<Node, nat>, top: nat, root: nat, path: seq<nat>, d: nat, l: nat, page: nat)
    requires Tree(m, more, top) && Node(root, []) in more && d <= |path| <= 3 && forall i :: i in path ==> i < ENTRIES
    requires Above(m, root, path, d, page) && Child(Node(root, path[..d]), l) in more
    ensures page != more[Child(Node(root, path[..d]), l)]
  {
    var c := Child(Node(root, path[..d]), l);
    var j :| 1 <= j < d && TableAt(m, root, path[..j]) == Some(page);
    NodeOnPath(m, more, top, root, path, j, page);
    assert Apart(more, Node(root, path[..j]), c) && |c.path| == d + 1;
  }

  lemma NodeOnPath(m: Memory, more: map<Node, nat>, top: nat, root: nat, path: seq<nat>, d: nat, page: nat)
    requires Tree(m, more, top) && Node(root, []) in more && d <= |path| <= 3 && forall i :: i in path ==> i < ENTRIES
    requires TableAt(m, root, path[..d]) == Some(page)
    ensures Node(root, path[..d]) in more && more[Node(root, path[..d])] == page
  {
    assert Placed(m, Node(root, []), more[Node(root, [])], top);
    assert forall i :: i in path[..d] ==> i in path;
    TableAtFindsNodes(m, more, top, Node(root, []), path[..d]);
    assert [] + path[..d] == path[..d];
  }

  /** map_page keeps the tables a tree without sharing exactly when at most one of the tables it needs
      could not be had: one NULL makes page 0 a table like any other, a second makes it share. */
  lemma MappedKeepsTree(mem: Memory, tables: map<Node, nat>, top: nat, root: nat, virt: nat, entry: nat, flags: nat,
                        pages: seq<nat>)
    requires Tree(mem, tables, top) && Node(root, []) in tables && mem.Keys == tables.Values && Unused(tables, 0)
    requires flags <= 0x1ff && flags % 2 == 1 && Present(entry) && Fit(pages, tables, top) && 0 !in pages
    ensures KeepsTree(tables, Mapped(mem, root, virt, entry, flags, pages), top) <==>
            Missing(tables, Node(root, []), Path(virt)) <= |pages| + 1
  {
    var n, path := Node(root, []), Path(virt);
    assert Placed(mem, n, tables[n], top);
    if Missing(tables, n, path) <= |pages| + 1 {
      NullIsPageZero(mem, root, path, flags, pages);
      var more := DescendBuilds(mem, tables, top, n, path, flags, pages + [0]);
      assert n.path + path == path;
      var m := Descend(mem, root, path, flags, pages).0;
      LeafUpdatesOnePage(m, more, top, root, virt, entry);
      assert GrowsTo(tables, more);
    } else {
      var (m, t, _) := Descend(mem, root, path, flags, pages);
      var m' := Store(m, 0, Slot(virt), entry);
      var d := DescendShares(mem, tables, top, n, path, flags, pages, m');
      if KeepsTree(tables, m', top) {
        var more :| GrowsTo(tables, more) && Tree(m', more, top);
        NoTreeAround(mem, tables, top, root, path, Slot(virt), entry, flags, pages, m, d, more);
      }
    }
  }

  lemma MissingOf(tables: map<Node, nat>, root: nat, p: seq<nat>)
    requires |p| == 3
    ensures Missing(tables, Node(root, []), p) ==
            (if Node(root, [p[0]]) in tables then 0 else 1) + (if Node(root, [p[0], p[1]]) in tables then 0 else 1)
            + (if Node(root, [p[0], p[1], p[2]]) in tables then 0 else 1)
  {
    var a, b, c := Node(root, [p[0]]), Node(root, [p[0], p[1]]), Node(root, [p[0], p[1], p[2]]);
    assert Child(Node(root, []), p[0]) == a && Child(a, p[1]) == b && Child(b, p[2]) == c;
    var q, r := p[1..], p[1..][1..];
    assert q[0] == p[1] && r[0] == p[2] && r[1..] == [];
    assert Missing(tables, c, []) == 0;
    assert Missing(tables, b, r) == if c in tables then 0 else 1;
    assert Missing(tables, a, q) == Missing(tables, b, r) + if b in tables then 0 else 1;
  }

  /** The missing tables are those still to be built. */
  lemma MissingAreUnbuilt(tables: map<Node, nat>, root: nat, virt: nat)
    ensures |Unbuilt(tables.Keys, root, Prefixes(virt))| == Missing(tables, Node(root, []), Path(virt))
  {
    var p := Path(virt);
    PrefixesByIndex(virt, []);
    MissingOf(tables, root, p);
    var a, b, c := [p[0]], [p[0], p[1]], [p[0], p[1], p[2]];
    assert [] + [p[0]] == a && a + [p[1]] == b && b + [p[2]] == c;
    assert Prefixes(virt) == {a, b, c};
    UnbuiltOfThree(tables.Keys, root, a, b, c);
  }

  lemma UnbuiltOfThree(keys: set<Node>, root: nat, a: seq<nat>, b: seq<nat>, c: seq<nat>)
    requires a != b && b != c && a != c
    ensures |Unbuilt(keys, root, {a, b, c})| == (if Node(root, a) in keys then 0 else 1)
                                                + (if Node(root, b) in keys then 0 else 1)
                                                + (if Node(root, c) in keys then 0 else 1)
  {
    hide Unbuilt;
    var ua := if Node(root, a) in keys then {} else {a};
    var ub := if Node(root, b) in keys then {} else {b};
    var uc := if Node(root, c) in keys then {} else {c};
    UnbuiltIsUnion(keys, root, a, b, c, ua, ub, uc);
    SizeOfThree(a, b, c, ua, ub, uc);
  }

  lemma UnbuiltIsUnion(keys: set<Node>, root: nat, a: seq<nat>, b: seq<nat>, c: seq<nat>,
                       ua: set<seq<nat>>, ub: set<seq<nat>>, uc: set<seq<nat>>)
    requires ua == (if Node(root, a) in keys then {} else {a}) && ub == (if Node(root, b) in keys then {} else {b})
    requires uc == if Node(root, c) in keys then {} else {c}
    ensures Unbuilt(keys, root, {a, b, c}) == ua + ub + uc
  {
  }

  lemma SizeOfThree<T>(a: T, b: T, c: T, ua: set<T>, ub: set<T>, uc: set<T>)
    requires a != b && b != c && a != c && (ua == {} || ua == {a}) && (ub == {} || ub == {b}) && (uc == {} || uc == {c})
    ensures |ua + ub + uc| == |ua| + |ub| + |uc|
  {
    assert |ua + ub| == |ua| + |ub|;
  }

  /** Pages handed out from `floor` on are fit for new tables. */
  ghost predicate NewPages(pages: seq<nat>, floor: nat, top: nat) {
    && floor <= top
    && (forall k :: 0 <= k < |pages| ==> floor <= pages[k] && pages[k] % PAGE == 0 && pages[k] + PAGE <= top)
    && (forall j, k :: 0 <= j < k < |pages| ==> pages[j] + PAGE <= pages[k])
  }

  lemma NewPagesJoin(p: seq<nat>, floor: nat, mid: nat, q: seq<nat>, top: nat)
    requires NewPages(p, floor, mid) && NewPages(q, mid, top)
    ensures NewPages(p + q, floor, top)
  {
  }

  lemma NewPagesFit(mem: Memory, tables: map<Node, nat>, floor: nat, pages: seq<nat>, top: nat)
    requires Tree(mem, tables, floor) && NewPages(pages, floor, top) && floor > 0
    ensures Fit(pages, tables, top) && 0 !in pages
  {
    forall k | 0 <= k < |pages|
      ensures Unused(tables, pages[k])
    {
      NewPagesAreUnused(mem, tables, floor, pages[k]);
    }
  }

  /** A step that uses up what it is given leaves the rest for later. */
  lemma NextTableLeaves(mem: Memory, table: nat, i: nat, flags: nat, p: seq<nat>, q: seq<nat>)
    requires NextTable(mem, table, i, flags, p).2 == []
    requires p == [] && !Present(Load(mem, table, i)) ==> q == []
    ensures NextTable(mem, table, i, flags, p + q).0 == NextTable(mem, table, i, flags, p).0
    ensures NextTable(mem, table, i, flags, p + q).1 == NextTable(mem, table, i, flags, p).1
    ensures NextTable(mem, table, i, flags, p + q).2 == q
  {
    if p != [] {
      assert (p + q)[1..] == p[1..] + q && (p + q)[0] == p[0];
    } else {
      assert p + q == q;
    }
  }

  /** One step of the walk used up the pages `p`, all there are to this step. */
  ghost predicate StepsDown(mem: Memory, table: nat, i: nat, flags: nat, p: seq<nat>, left: nat, m: Memory, next: nat) {
    && (m, next, []) == NextTable(mem, table, i, flags, p)
    && (p == [] && !Present(Load(mem, table, i)) ==> left == 0)
  }

  /** Three steps make the walk; `left` are the pages left after each. */
  lemma DescendsInSteps(mem: Memory, root: nat, path: seq<nat>, flags: nat,
                        p: seq<nat>, m1: Memory, t1: nat, q: seq<nat>, m2: Memory, t2: nat, r: seq<nat>, m3: Memory,
                        t3: nat, left: nat)
    requires |path| == 3 && StepsDown(mem, root, path[0], flags, p, |q| + |r| + left, m1, t1)
    requires StepsDown(m1, t1, path[1], flags, q, |r| + left, m2, t2)
    requires StepsDown(m2, t2, path[2], flags, r, left, m3, t3)
    ensures Descend(mem, root, path, flags, p + q + r) == (m3, t3, [])
  {
    NextTableLeaves(mem, root, path[0], flags, p, q + r);
    NextTableLeaves(m1, t1, path[1], flags, q, r);
    hide NextTable;
    assert p + q + r == p + (q + r);
    var u, v := path[1..], path[1..][1..];
    assert u[0] == path[1] && v[0] == path[2] && v[1..] == [];
    assert Descend(m3, t3, [], flags, []) == (m3, t3, []);
    assert Descend(m2, t2, v, flags, r) == (m3, t3, []);
    assert Descend(m1, t1, u, flags, q + r) == (m3, t3, []);
  }
}
