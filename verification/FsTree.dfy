/** The file tree as a value: nodes with names and child lists, searched by first match. */
module FsTree {
  import opened Arith
  import Paths

  datatype Entry<N> = Entry(name: string, children: seq<N>)

  type Snap<N> = map<N, Entry<N>>

  ghost predicate Closed<N>(t: Snap<N>) {
    forall n, c :: n in t && c in t[n].children ==> c in t
  }

  /** tree_match_child with vfs_match_name: the first child whose name matches. */
  function Find<N(==)>(t: Snap<N>, kids: seq<N>, name: string): (r: Option<N>)
    requires forall c :: c in kids ==> c in t
    ensures r.Some? ==> r.value in kids && r.value in t
  {
    if kids == [] then None
    else if Paths.StrNCmp(t[kids[0]].name, name, Paths.NAME_MAX) == 0 then Some(kids[0])
    else Find(t, kids[1..], name)
  }

  /** Following components down from `n`. */
  ghost function Resolve<N>(t: Snap<N>, n: N, path: seq<string>): (r: Option<N>)
    requires Closed(t) && n in t
    ensures r.Some? ==> r.value in t
    decreases |path|
  {
    if path == [] then Some(n)
    else match Find(t, t[n].children, path[0])
      case None => None
      case Some(c) => Resolve(t, c, path[1..])
  }

  // ----- appending a child -----

  /** tree_insert_child: a new node without children, linked last below `parent`. */
  ghost function Insert<N>(t: Snap<N>, parent: N, c: N, name: string): Snap<N>
    requires parent in t
  {
    t[parent := Entry(t[parent].name, t[parent].children + [c])][c := Entry(name, [])]
  }

  ghost predicate CanInsert<N>(t: Snap<N>, parent: N, c: N) {
    Closed(t) && parent in t && c !in t
  }

  lemma InsertCloses<N>(t: Snap<N>, parent: N, c: N, name: string)
    requires CanInsert(t, parent, c)
    ensures Closed(Insert(t, parent, c, name))
  {
  }

  /** Names read the same in both trees, so searching the same children gives the same answer. */
  lemma {:induction false} FindKeeps<N>(t: Snap<N>, u: Snap<N>, kids: seq<N>, name: string)
    requires forall k :: k in kids ==> k in t && k in u && t[k].name == u[k].name
    ensures Find(u, kids, name) == Find(t, kids, name)
  {
    if kids != [] {
      FindKeeps(t, u, kids[1..], name);
    }
  }

  lemma {:induction false} FindAppends<N>(t: Snap<N>, kids: seq<N>, c: N, name: string)
    requires (forall k :: k in kids ==> k in t) && c in t && |name| < Paths.NAME_MAX
    ensures Find(t, kids + [c], name) ==
            if Find(t, kids, name).Some? then Find(t, kids, name) else if t[c].name == name then Some(c) else None
  {
    if kids == [] {
      Paths.MatchIsEquality(t[c].name, name, Paths.NAME_MAX);
    } else {
      assert (kids + [c])[1..] == kids[1..] + [c];
      FindAppends(t, kids[1..], c, name);
    }
  }

  ghost predicate ShortNames(path: seq<string>) {
    forall i :: 0 <= i < |path| ==> |path[i]| < Paths.NAME_MAX
  }

  lemma FindsNothing<N>(t: Snap<N>, name: string)
    ensures Find(t, [], name) == None
  {
  }

  lemma ClosedParts<N>(t: Snap<N>, n: N)
    requires Closed(t) && n in t
    ensures forall k :: k in t[n].children ==> k in t
  {
  }

  /** The new node answers to one thing only: its name below its parent, if that was free. */
  lemma {:induction false} InsertResolves<N>(t: Snap<N>, parent: N, c: N, name: string, n: N, path: seq<string>)
    requires CanInsert(t, parent, c) && n in t && ShortNames(path)
    ensures Closed(Insert(t, parent, c, name))
    ensures Resolve(Insert(t, parent, c, name), n, path) ==
            if Reaches(t, n, path, parent, name) then Some(c) else Resolve(t, n, path)
    decreases |path|
  {
    hide Find, Closed;
    var u := Insert(t, parent, c, name);
    InsertCloses(t, parent, c, name);
    ClosedParts(t, n);
    if path != [] {
      FindKeeps(t, u, t[n].children, path[0]);
      if n == parent {
        FindAppends(u, t[n].children, c, path[0]);
      }
      match Find(t, t[n].children, path[0])
      case Some(k) =>
        InsertResolves(t, parent, c, name, k, path[1..]);
        assert |path| > 1 ==> path[1..][..|path| - 2] == path[..|path| - 1][1..];
      case None =>
        if |path| > 1 && n == parent && path[0] == name {
          FindsNothing(u, path[1]);
        }
    }
  }

  /** `path` leads to the free place `name` below `parent`. */
  ghost predicate Reaches<N>(t: Snap<N>, n: N, path: seq<string>, parent: N, name: string)
    requires Closed(t) && n in t && parent in t
  {
    && path != [] && path[|path| - 1] == name
    && Resolve(t, n, path[..|path| - 1]) == Some(parent)
    && Find(t, t[parent].children, name).None?
  }

  // ----- the path of a node -----

  /** Every node lies where its parent lies, one name further. */
  ghost predicate Located<N>(t: Snap<N>, where: map<N, seq<string>>) {
    && (forall n :: n in t ==> n in where)
    && forall n, c {:trigger c in t[n].children} :: n in t && c in t[n].children && c in t ==>
          where[c] == where[n] + [t[c].name]
  }

  lemma {:induction false} ResolveFollowsNames<N>(t: Snap<N>, where: map<N, seq<string>>, n: N, path: seq<string>)
    requires Closed(t) && Located(t, where) && n in t && ShortNames(path)
    requires Resolve(t, n, path).Some?
    ensures where[Resolve(t, n, path).value] == where[n] + path
    decreases |path|
  {
    if path == [] {
      assert where[n] + path == where[n];
    } else {
      var c := Find(t, t[n].children, path[0]).value;
      FindMatches(t, t[n].children, path[0]);
      assert where[c] == where[n] + [path[0]];
      ResolveFollowsNames(t, where, c, path[1..]);
      Regroup(where[n], path);
    }
  }

  lemma Regroup(prefix: seq<string>, path: seq<string>)
    requires path != []
    ensures prefix + [path[0]] + path[1..] == prefix + path
  {
  }

  lemma {:induction false} FindMatches<N>(t: Snap<N>, kids: seq<N>, name: string)
    requires (forall k :: k in kids ==> k in t) && |name| < Paths.NAME_MAX
    requires Find(t, kids, name).Some?
    ensures t[Find(t, kids, name).value].name == name
  {
    Paths.MatchIsEquality(t[kids[0]].name, name, Paths.NAME_MAX);
    if Paths.StrNCmp(t[kids[0]].name, name, Paths.NAME_MAX) != 0 {
      FindMatches(t, kids[1..], name);
    }
  }

  // ----- the tree as a map from paths -----

  lemma {:induction false} ResolveSnoc<N>(t: Snap<N>, n: N, path: seq<string>, name: string)
    requires Closed(t) && n in t
    ensures Resolve(t, n, path + [name]) ==
            match Resolve(t, n, path) case None => None case Some(m) => Find(t, t[m].children, name)
    decreases |path|
  {
    if path == [] {
      assert (path + [name])[1..] == [];
    } else {
      assert (path + [name])[1..] == path[1..] + [name];
      match Find(t, t[n].children, path[0])
      case None =>
      case Some(c) => ResolveSnoc(t, c, path[1..], name);
    }
  }

  /** What does not resolve does not resolve any deeper. */
  lemma {:induction false} PrefixesResolve<N>(t: Snap<N>, n: N, path: seq<string>, k: nat)
    requires Closed(t) && n in t && k <= |path| && Resolve(t, n, path).Some?
    ensures Resolve(t, n, path[..k]).Some?
    decreases |path|
  {
    if 0 < k {
      var c := Find(t, t[n].children, path[0]).value;
      PrefixesResolve(t, c, path[1..], k - 1);
      assert path[..k][1..] == path[1..][..k - 1];
    }
  }

  ghost predicate Rooted<N>(t: Snap<N>, where: map<N, seq<string>>, root: N) {
    Closed(t) && Located(t, where) && root in t && where[root] == []
  }

  /** From `t` to `u` exactly the path `full` was added, unless it was taken. */
  ghost predicate AddsPath<N>(t: Snap<N>, u: Snap<N>, root: N, full: seq<string>, c: N)
    requires Closed(t) && Closed(u) && root in t && root in u
  {
    forall q {:trigger Resolve(u, root, q)} :: ShortNames(q) ==>
      Resolve(u, root, q) == if q == full && Resolve(t, root, q).None? then Some(c) else Resolve(t, root, q)
  }

  /** Inserting a node is one update of the map from paths to nodes. */
  lemma InsertAddsPath<N>(t: Snap<N>, where: map<N, seq<string>>, root: N, path: seq<string>, parent: N, c: N,
                          name: string)
    requires Rooted(t, where, root) && CanInsert(t, parent, c) && ShortNames(path)
    requires Resolve(t, root, path) == Some(parent)
    ensures var u := Insert(t, parent, c, name);
            Rooted(u, where[c := path + [name]], root) && AddsPath(t, u, root, path + [name], c)
  {
    var u := Insert(t, parent, c, name);
    InsertCloses(t, parent, c, name);
    ResolveFollowsNames(t, where, root, path);
    assert where[parent] == path by {
      assert [] + path == path;
    }
    forall q | ShortNames(q)
      ensures Resolve(u, root, q) == if q == path + [name] && Resolve(t, root, q).None? then Some(c)
                else Resolve(t, root, q)
    {
      InsertResolves(t, parent, c, name, root, q);
      ReachesOnlyFull(t, where, root, path, parent, name, q);
    }
  }

  lemma ReachesOnlyFull<N>(t: Snap<N>, where: map<N, seq<string>>, root: N, path: seq<string>, parent: N,
                           name: string, q: seq<string>)
    requires Rooted(t, where, root) && parent in t && ShortNames(q)
    requires Resolve(t, root, path) == Some(parent) && where[parent] == path
    ensures Reaches(t, root, q, parent, name) <==> q == path + [name] && Resolve(t, root, q).None?
  {
    if q != [] {
      var up := q[..|q| - 1];
      assert q == up + [q[|q| - 1]];
      ResolveSnoc(t, root, up, q[|q| - 1]);
      if Resolve(t, root, up) == Some(parent) {
        ResolveFollowsNames(t, where, root, up);
        assert [] + up == up;
      }
      if q == path + [name] {
        assert up == path && q[|q| - 1] == name;
      }
    }
  }

  /** From `t` to `u` the prefixes of `full` were added where missing, and nothing else. */
  ghost predicate GrownTo<N>(t: Snap<N>, u: Snap<N>, root: N, full: seq<string>)
    requires Closed(t) && Closed(u) && root in t && root in u
  {
    forall q {:trigger Resolve(u, root, q)} :: ShortNames(q) ==>
      if Resolve(t, root, q).Some? then Resolve(u, root, q) == Resolve(t, root, q)
      else Resolve(u, root, q).Some? <==> q <= full
  }

  lemma GrowsOneStep<N>(t: Snap<N>, u: Snap<N>, v: Snap<N>, root: N, path: seq<string>, name: string, c: N)
    requires Closed(t) && Closed(u) && Closed(v) && root in t && root in u && root in v
    requires GrownTo(t, u, root, path) && AddsPath(u, v, root, path + [name], c)
    ensures GrownTo(t, v, root, path + [name])
  {
    forall q | ShortNames(q)
      ensures if Resolve(t, root, q).Some? then Resolve(v, root, q) == Resolve(t, root, q)
              else Resolve(v, root, q).Some? <==> q <= path + [name]
    {
      assert q <= path + [name] <==> q <= path || q == path + [name] by {
        PrefixOfSnoc(q, path, name);
      }
      assert if Resolve(t, root, q).Some? then Resolve(u, root, q) == Resolve(t, root, q)
             else Resolve(u, root, q).Some? <==> q <= path;
    }
  }

  lemma PrefixOfSnoc(q: seq<string>, path: seq<string>, name: string)
    ensures q <= path + [name] <==> q <= path || q == path + [name]
  {
  }

  /** A lookup that fails on the way fails altogether. */
  lemma FailsDeeper<N>(t: Snap<N>, n: N, full: seq<string>, k: nat)
    requires Closed(t) && n in t && k <= |full| && Resolve(t, n, full[..k]).None?
    ensures Resolve(t, n, full).None?
  {
    if Resolve(t, n, full).Some? {
      PrefixesResolve(t, n, full, k);
    }
  }

  lemma GrownFromStart<N>(t: Snap<N>, root: N)
    requires Closed(t) && root in t
    ensures GrownTo(t, t, root, [])
  {
  }

  /** A walk followed by an insertion: the whole effect of a mount. */
  lemma MountGrows<N>(t: Snap<N>, u: Snap<N>, v: Snap<N>, root: N, path: seq<string>, name: string, c: N)
    requires Closed(t) && Closed(u) && Closed(v) && root in t && root in u && root in v
    requires GrownTo(t, u, root, path) && AddsPath(u, v, root, path + [name], c)
    ensures GrownTo(t, v, root, path + [name])
    ensures ShortNames(path + [name]) && Resolve(t, root, path + [name]).None? ==>
              Resolve(v, root, path + [name]) == Some(c)
  {
    GrowsOneStep(t, u, v, root, path, name, c);
  }

  lemma BareRoot<N>(root: N)
    ensures Rooted(map[root := Entry("", [])], map[root := []], root)
  {
  }
}
