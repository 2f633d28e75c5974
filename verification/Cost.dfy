/** What mapping pages costs in page frames: when the allocator's supply suffices, exactly. */
module Cost {
  import opened Arith
  import opened Paging

  /** Whether no allocation has failed, the tables there are, and the pages still to be had. */
  datatype Account = Account(good: bool, keys: set<Node>, supply: nat)

  ghost function Nodes(root: nat, paths: set<seq<nat>>): set<Node> {
    set p | p in paths :: Node(root, p)
  }

  /** The tables at `paths` that are still to be built. */
  ghost function Unbuilt(keys: set<Node>, root: nat, paths: set<seq<nat>>): set<seq<nat>> {
    set p | p in paths && Node(root, p) !in keys
  }

  ghost predicate Spends(a: Account, b: Account, root: nat, paths: set<seq<nat>>, cost: nat) {
    && (b.good <==> a.good && cost <= a.supply)
    && (b.good ==> b.keys == a.keys + Nodes(root, paths) && b.supply == a.supply - cost)
  }

  /** From `a` to `b` the tables at `paths` were built where missing and `frames` frames taken: that
      succeeds exactly when the supply suffices, and uses up exactly that much of it. */
  ghost predicate Takes(a: Account, b: Account, root: nat, paths: set<seq<nat>>, frames: nat) {
    Spends(a, b, root, paths, frames + |Unbuilt(a.keys, root, paths)|)
  }

  lemma {:induction false} SubsetIsSmaller<T>(a: set<T>, b: set<T>)
    requires a <= b
    ensures |a| <= |b|
  {
    if a != {} {
      var x :| x in a;
      SubsetIsSmaller(a - {x}, b - {x});
    }
  }

  lemma TakesNothing(a: Account, root: nat)
    ensures Takes(a, a, root, {}, 0)
  {
    assert Unbuilt(a.keys, root, {}) == {} && Nodes(root, {}) == {};
  }

  lemma TakesMore(a: Account, b: Account, c: Account, root: nat, p: set<seq<nat>>, f: nat, q: set<seq<nat>>, g: nat)
    requires Takes(a, b, root, p, f) && Takes(b, c, root, q, g)
    ensures Takes(a, c, root, p + q, f + g)
  {
    var first, all := Unbuilt(a.keys, root, p), Unbuilt(a.keys, root, p + q);
    SubsetIsSmaller(first, all);
    if b.good {
      assert all == first + Unbuilt(b.keys, root, q);
      assert Nodes(root, p + q) == Nodes(root, p) + Nodes(root, q);
    }
  }

  // ----- the tables for a page and for a range -----

  /** The three tables on the way to the page of `virt`, below the top-level one. */
  function Prefixes(virt: nat): set<seq<nat>> {
    {Path(virt)[..1], Path(virt)[..2], Path(virt)}
  }

  function PathsOf(base: nat, n: nat): set<seq<nat>> {
    if n == 0 then {} else PathsOf(base, n - 1) + Prefixes(U64(base + (n - 1) * PAGE))
  }

  lemma PrefixesByIndex(virt: nat, top: seq<nat>)
    requires top == []
    ensures var p := Path(virt);
            && Path(virt) == top + [p[0]] + [p[1]] + [p[2]]
            && Prefixes(virt) == {top + [p[0]], top + [p[0]] + [p[1]], top + [p[0]] + [p[1]] + [p[2]]}
  {
    var p := Path(virt);
    assert p[..1] == top + [p[0]] && p[..2] == top + [p[0]] + [p[1]] && p == top + [p[0]] + [p[1]] + [p[2]];
  }

  /** A missing table costs one frame ... */
  lemma NewTable(a: Account, n: Node)
    requires a.good ==> n !in a.keys
    ensures a.good ==> Unbuilt(a.keys, n.root, {n.path}) == {n.path} && Nodes(n.root, {n.path}) == {n}
  {
  }

  /** ... and one that is there nothing. */
  lemma OldTable(a: Account, n: Node)
    requires a.good ==> n in a.keys
    ensures Takes(a, a, n.root, {n.path}, 0)
  {
    if a.good {
      assert Unbuilt(a.keys, n.root, {n.path}) == {};
      assert Nodes(n.root, {n.path}) == {n};
    }
  }

  /** A frame, if there is one left. */
  lemma TakesFrame(a: Account, b: Account, root: nat)
    requires b.good == (a.good && a.supply > 0) && b.keys == a.keys
    requires b.supply == a.supply - if a.supply > 0 then 1 else 0
    ensures Takes(a, b, root, {}, 1)
  {
    TakesNothing(a, root);
  }

  /** The next page of a range, onto a frame taken for it. */
  lemma TakesNextFrame(a: Account, b: Account, c: Account, d: Account, root: nat, base: nat, n: nat)
    requires Takes(a, b, root, PathsOf(base, n), n) && Takes(b, c, root, {}, 1)
    requires Takes(c, d, root, Prefixes(U64(base + n * PAGE)), 0)
    ensures Takes(a, d, root, PathsOf(base, n + 1), n + 1)
  {
    hide Takes, Prefixes;
    TakesMore(a, b, c, root, PathsOf(base, n), n, {}, 1);
    TakesMore(a, c, d, root, PathsOf(base, n) + {}, n + 1, Prefixes(U64(base + n * PAGE)), 0);
    assert PathsOf(base, n) + {} + Prefixes(U64(base + n * PAGE)) == PathsOf(base, n + 1);
  }

  lemma {:induction false} PathsLeadDown(base: nat, n: nat)
    ensures [] !in PathsOf(base, n)
  {
    if n > 0 {
      PathsLeadDown(base, n - 1);
    }
  }

  /** In a space without any table below its top-level one, all of them are to be built. */
  lemma AllUnbuilt(keys: set<Node>, root: nat, paths: set<seq<nat>>)
    requires [] !in paths && forall n :: n in keys && n.root == root ==> n.path == []
    ensures Unbuilt(keys, root, paths) == paths
  {
    forall p | p in paths
      ensures Node(root, p) !in keys
    {
    }
  }

  // ----- a supply that is large enough -----

  const SPAN: nat := 0x20_0000  // what one leaf table maps

  /** The tables for the first address of each of `m` spans. */
  function SpanPaths(base: nat, m: nat): set<seq<nat>> {
    if m == 0 then {} else SpanPaths(base, m - 1) + Prefixes(U64(base + (m - 1) * SPAN))
  }

  lemma {:induction false} SpanPathsCount(base: nat, m: nat)
    ensures |SpanPaths(base, m)| <= 3 * m
  {
    if m > 0 {
      SpanPathsCount(base, m - 1);
      UnionIsNoLarger(SpanPaths(base, m - 1), Prefixes(U64(base + (m - 1) * SPAN)));
    }
  }

  lemma UnionIsNoLarger<T>(a: set<T>, b: set<T>)
    ensures |a + b| <= |a| + |b|
  {
    assert a + b == a + (b - a);
    SubsetIsSmaller(b - a, b);
  }

  lemma {:induction false} SpanPathsHave(base: nat, m: nat, j: nat)
    requires j < m
    ensures Prefixes(U64(base + j * SPAN)) <= SpanPaths(base, m)
  {
    if j < m - 1 {
      SpanPathsHave(base, m - 1, j);
    }
  }

  lemma SpanHasOneLeafTable(x: nat)
    ensures Prefixes(U64(x)) == Prefixes(U64(x / SPAN * SPAN))
  {
    var q, r := x / SPAN, x % SPAN;
    WrapsBySpans(q, r);
    WrapsBySpans(q, 0);
    assert x == q * SPAN + r;
    SameLeafTable(U64(x), U64(q * SPAN));
  }

  lemma WrapsBySpans(q: nat, r: nat)
    requires r < SPAN
    ensures U64(q * SPAN + r) / SPAN == q % 0x800_0000_0000
  {
    var k, m := q / 0x800_0000_0000, q % 0x800_0000_0000;
    assert q * SPAN + r == (m * SPAN + r) + k * W64;
    ModDrops(m * SPAN + r, k, W64);
    Quotient(m, r, SPAN);
  }

  lemma SameLeafTable(v: nat, w: nat)
    requires v / SPAN == w / SPAN
    ensures Path(v) == Path(w)
  {
    assert v / 0x4000_0000 == v / SPAN / 512 && w / 0x4000_0000 == w / SPAN / 512;
    assert v / 0x80_0000_0000 == v / SPAN / 512 / 512 && w / 0x80_0000_0000 == w / SPAN / 512 / 512;
  }

  lemma {:induction false} PathsOfLieInSpans(base: nat, n: nat, m: nat)
    requires n / 512 + 2 <= m
    ensures PathsOf(base, n) <= SpanPaths(base / SPAN * SPAN, m)
    decreases n
  {
    if n > 0 {
      hide *;
      PathsOfLieInSpans(base, n - 1, m);
      LastPageIsInSpan(base, n, m);
      PathsOfOneMore(base, n);
    }
  }

  lemma PathsOfOneMore(base: nat, n: nat)
    requires n > 0
    ensures PathsOf(base, n) == PathsOf(base, n - 1) + Prefixes(U64(base + (n - 1) * PAGE))
  {
  }

  lemma LastPageIsInSpan(base: nat, n: nat, m: nat)
    requires 0 < n && n / 512 + 2 <= m
    ensures Prefixes(U64(base + (n - 1) * PAGE)) <= SpanPaths(base / SPAN * SPAN, m)
  {
    hide Prefixes, SpanPaths, U64;
    var x := base + (n - 1) * PAGE;
    SpanOfPage(base, n, m);
    SpanHasOneLeafTable(x);
    var j := x / SPAN - base / SPAN;
    SpanPathsHave(base / SPAN * SPAN, m, j);
    assert x / SPAN * SPAN == base / SPAN * SPAN + j * SPAN;
  }

  lemma SpanOfPage(base: nat, n: nat, m: nat)
    requires 0 < n && n / 512 + 2 <= m
    ensures 0 <= (base + (n - 1) * PAGE) / SPAN - base / SPAN < m
  {
    var x, d := base + (n - 1) * PAGE, n / 512 + 1;
    DivMod(base, SPAN);
    DivMod(n, 512);
    DivMod(x, SPAN);
    assert x < base + d * SPAN;
  }

  /** Three frames always suffice for mapping a page. */
  lemma PageFits(a: Account, b: Account, root: nat, virt: nat)
    requires Takes(a, b, root, Prefixes(virt), 0)
    requires a.good && 3 <= a.supply
    ensures b.good
  {
    SubsetIsSmaller(Unbuilt(a.keys, root, Prefixes(virt)), Prefixes(virt));
  }

  /** A range of `n` pages needs at most three tables for every 512 pages begun. */
  lemma RangeNeedsFewTables(base: nat, n: nat)
    ensures |PathsOf(base, n)| <= 3 * (n / 512 + 2)
  {
    hide PathsOf, SpanPaths, Prefixes, U64;
    var m := n / 512 + 2;
    PathsOfLieInSpans(base, n, m);
    SpanPathsCount(base / SPAN * SPAN, m);
    SubsetIsSmaller(PathsOf(base, n), SpanPaths(base / SPAN * SPAN, m));
  }

  /** With a frame for each page and for that many tables, mapping a range succeeds. */
  lemma RangeFits(a: Account, b: Account, root: nat, base: nat, n: nat, frames: nat)
    requires Takes(a, b, root, PathsOf(base, n), frames)
    requires a.good && frames + 3 * (n / 512 + 2) <= a.supply
    ensures b.good
  {
    RangeNeedsFewTables(base, n);
    SubsetIsSmaller(Unbuilt(a.keys, root, PathsOf(base, n)), PathsOf(base, n));
  }
}
