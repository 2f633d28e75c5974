/** The virtual filesystem: mounting and looking up nodes in a tree that grows in place. */
module Vfs {
  import opened Arith
  import opened Paths
  import opened FsTree
  import Tar
  import HashMap

  const MAX_FILESYSTEMS: nat := 15  // MAX_REGISTERED_FILESYSTEMS

  datatype Kind = FsFile | FsRoot | FsDirectory

  /** The callbacks a filesystem installs when one of its nodes is mounted. */
  datatype Ops = NoOps | Ramfs

  class FsNode {
    var name: string
    var kind: Kind
    var fs: Option<nat>         // pointer to the filesystem's name, the key it is registered under
    var ops: Ops
    var ref: bool               // open
    var vfsPtr: TreeNode?
    var device: Tar.TarBlock?

    constructor (name: string, kind: Kind, fs: Option<nat>, device: Tar.TarBlock?)
      ensures this.name == name && this.kind == kind && this.fs == fs && this.device == device
      ensures ops == NoOps && !ref
    {
      this.name, this.kind, this.fs, this.device := name, kind, fs, device;
      ops, ref, vfsPtr := NoOps, false, null;
    }
  }

  class TreeNode {
    const data: FsNode
    var children: seq<TreeNode>

    constructor (data: FsNode)
      ensures this.data == data && children == []
    {
      this.data := data;
      children := [];
    }
  }

  class Vfs {
    var root: TreeNode
    const filesystems: HashMap.Map<Ops>
    ghost var nodes: set<TreeNode>
    ghost var where: map<TreeNode, seq<string>>  // each node's path

    ghost function Data(): set<FsNode>
      reads this
    {
      set n | n in nodes :: n.data
    }

    ghost function Now(): (t: Snap<TreeNode>)
      reads this, nodes, Data()
      ensures t.Keys == nodes
    {
      map n | n in nodes :: Entry(n.data.name, n.children)
    }

    ghost predicate Valid()
      reads this, nodes, Data()
    {
      Rooted(Now(), where, root)
    }

    /** What a path of components leads to. */
    ghost function At(path: seq<string>): Option<TreeNode>
      requires Valid()
      reads this, nodes, Data()
    {
      Resolve(Now(), root, path)
    }

    /** Every ramfs node has a block behind it. */
    ghost predicate HasBlocks()
      reads this, Data()
    {
      forall d :: d in Data() && d.ops == Ramfs ==> d.device != null
    }

    /** vfs_init with vfs_mount_root. `text` is what a filesystem's name points to. */
    constructor (text: nat -> string)
      ensures Valid() && nodes == {root} && root.children == [] && fresh(root) && fresh(root.data) && HasBlocks()
      ensures filesystems.Valid() && fresh(filesystems) && fresh(filesystems.entries) && filesystems.Nodes() == {}
      ensures forall key :: filesystems.Lookup(key) == None
    {
      hide Rooted, Closed, Located, HashMap.Map.Lookup,
           HashMap.Linked, HashMap.Homed, HashMap.Apart, HashMap.Bucket, HashMap.Find, HashMap.Contents;
      var data := new FsNode("", FsRoot, None, null);
      var node := new TreeNode(data);
      root := node;
      nodes := {node};
      where := map[node := []];
      filesystems := new HashMap.Map(MAX_FILESYSTEMS, text);
      new;
      BareRoot(root);
      assert Now() == map[root := Entry("", [])];
    }

    /** tree_match_child with vfs_match_name. */
    method MatchChild(parent: TreeNode, name: string) returns (r: TreeNode?)
      requires Valid() && parent in nodes
      ensures r == match Find(Now(), Now()[parent].children, name) case Some(c) => c case None => null
    {
      var i := 0;
      assert parent.children[0..] == parent.children;
      assert forall c :: c in parent.children ==> c in Now()[parent].children;
      while i < |parent.children|
        invariant i <= |parent.children|
        invariant Find(Now(), parent.children, name) == Find(Now(), parent.children[i..], name)
      {
        var c := parent.children[i];
        assert c in parent.children && parent.children[i..][1..] == parent.children[i + 1..];
        if StrNCmp(c.data.name, name, NAME_MAX) == 0 {
          return c;
        }
        i := i + 1;
      }
      return null;
    }

    /** tree_insert_child. */
    method InsertChild(parent: TreeNode, data: FsNode, ghost path: seq<string>) returns (c: TreeNode)
      requires Valid() && parent in nodes && ShortNames(path) && At(path) == Some(parent)
      modifies this`nodes, this`where, parent`children
      ensures Valid() && fresh(c) && c.data == data && nodes == old(nodes) + {c}
      ensures Now() == Insert(old(Now()), parent, c, data.name)
      ensures AddsPath(old(Now()), Now(), root, path + [data.name], c)
    {
      hide Located, Closed, AddsPath, Resolve, ShortNames;
      ghost var t := Now();
      c := new TreeNode(data);
      InsertAddsPath(t, where, root, path, parent, c, data.name);
      parent.children := parent.children + [c];
      nodes := nodes + {c};
      where := where[c := path + [data.name]];
      assert Now() == Insert(t, parent, c, data.name);
    }

    /** The nodes made since `before` are directories without callbacks. */
    ghost predicate NewDirectories(before: set<TreeNode>)
      reads this, nodes, Data()
    {
      before <= nodes && forall n :: n in nodes && n !in before ==> n.data.kind == FsDirectory && n.data.ops == NoOps
    }

    /** A directory node below `parent`, where `name` is free. */
    method NewDirectory(parent: TreeNode, name: string, ghost path: seq<string>) returns (c: TreeNode)
      requires Valid() && parent in nodes && ShortNames(path) && |name| < NAME_MAX && At(path) == Some(parent)
      modifies this`nodes, this`where, parent`children
      ensures Valid() && nodes == old(nodes) + {c} && fresh(c) && fresh(c.data)
      ensures c.data.kind == FsDirectory && c.data.ops == NoOps
      ensures AddsPath(old(Now()), Now(), root, path + [name], c)
    {
      hide Located, Closed, Resolve, Find, Insert, AddsPath, ShortNames;
      ghost var t := Now();
      var file := new FsNode(name, FsDirectory, None, null);
      assert Now() == t;
      c := InsertChild(parent, file, path);
      ghost var u := Now();
      file.vfsPtr := c;
      assert Now() == u;
    }

    /** Without `opt` only a lookup. */
    method CreateOrTraverse(parent: TreeNode, name: string, opt: FsNode?, ghost path: seq<string>)
      returns (r: TreeNode?)
      requires Valid() && parent in nodes && ShortNames(path) && |name| < NAME_MAX && At(path) == Some(parent)
      modifies this`nodes, this`where, parent`children
      ensures Valid() && old(nodes) <= nodes
      ensures (forall n :: n in nodes && n !in old(nodes) ==> fresh(n) && fresh(n.data))
      ensures NewDirectories(old(nodes))
      ensures r == match At(path + [name]) case Some(c) => c case None => null
      ensures opt == null ==> nodes == old(nodes) && Now() == old(Now())
      ensures opt != null ==> r != null && AddsPath(old(Now()), Now(), root, path + [name], r)
    {
      hide Located, Closed, Resolve, Find;
      ghost var t := Now();
      ResolveSnoc(t, root, path, name);
      r := MatchChild(parent, name);
      assert Now() == t;
      if r == null && opt != null {
        r := NewDirectory(parent, name, path);
      }
    }

    /** vfs_mount's walk has followed `comps` to `level`, starting from the tree `t` over the nodes
        `before`; only a creating walk has changed the tree. */
    ghost predicate Walking(t: Snap<TreeNode>, before: set<TreeNode>, create: bool, comps: seq<string>, level: TreeNode)
      reads this, nodes, Data()
    {
      && Valid() && NewDirectories(before) && ShortNames(comps)
      && level in nodes && At(comps) == Some(level)
      && Closed(t) && root in t
      && if create then GrownTo(t, Now(), root, comps) else nodes == before && Now() == t
    }

    /** One component of the walk. */
    method Descend(level: TreeNode, name: string, opt: FsNode?, ghost comps: seq<string>, ghost t: Snap<TreeNode>,
                   ghost before: set<TreeNode>)
      returns (next: TreeNode?)
      requires Walking(t, before, opt != null, comps, level) && |name| < NAME_MAX
      modifies this`nodes, this`where, level`children
      ensures old(nodes) <= nodes && (forall n :: n in nodes && n !in old(nodes) ==> fresh(n) && fresh(n.data))
      ensures if next != null then next in nodes && Walking(t, before, opt != null, comps + [name], next)
              else opt == null && Valid() && nodes == before && Now() == t && Resolve(t, root, comps + [name]).None?
    {
      hide Vfs.Now, Located, Closed, Resolve, AddsPath, GrownTo;
      ghost var u := Now();
      next := CreateOrTraverse(level, name, opt, comps);
      if opt != null {
        GrowsOneStep(t, u, Now(), root, comps, name, next);
      }
    }

    lemma StartWalking(create: bool)
      requires Valid()
      ensures Walking(Now(), nodes, create, [], root)
    {
      GrownFromStart(Now(), root);
    }

    lemma LookupFails(path: string, comps: seq<string>, name: string)
      requires Valid() && path != [] && comps + [name] <= Components(path) && At(comps + [name]).None?
      ensures At(Components(path)).None?
    {
      assert Components(path)[..|comps| + 1] == comps + [name];
      FailsDeeper(Now(), root, Components(path), |comps| + 1);
    }

    /** vfs_mount's walk along the path: with `opt` it creates what is missing, without it stops
        there. The buffer collects one component at a time. */
    method Traverse(path: string, opt: FsNode?) returns (level: TreeNode?)
      requires Valid() && path != [] && path[0] == '/' && FitsBuffer(path)
      modifies this`nodes, this`where, nodes
      ensures old(nodes) <= nodes && (forall n :: n in nodes && n !in old(nodes) ==> fresh(n) && fresh(n.data))
      ensures if level != null
              then level in nodes && Walking(old(Now()), old(nodes), opt != null, Components(path), level)
              else opt == null && Valid() && nodes == old(nodes) && Now() == old(Now()) && At(Components(path)).None?
    {
      hide Vfs.Now, Vfs.Walking, Rooted, Resolve, Scan, Scanned, FitsBuffer, Components;
      var buf: string := seq(NAME_MAX, _ => '\0');  // the array on vfs_mount's stack
      level := root;
      var i, j := 0, 0;
      ghost var comps: seq<string> := [];
      StartScan(path);
      StartWalking(opt != null);
      while i < |path|
        invariant 0 <= i <= |path| && 0 <= j < |buf| == NAME_MAX && (i == 0 ==> j == 0 && comps == [])
        invariant Scanned(path, i, comps, buf[..j])
        invariant old(nodes) <= nodes && (forall n :: n in nodes && n !in old(nodes) ==> fresh(n) && fresh(n.data))
        invariant level in nodes && Walking(old(Now()), old(nodes), opt != null, comps, level)
      {
        var p := path[i];
        ScanCharacter(path, i, comps, buf[..j]);
        if p == '/' {
          if i > 0 {
            buf := buf[j := '\0'];
            var name := buf[..j];
            var next := Descend(level, name, opt, comps, old(Now()), old(nodes));
            if next == null {
              LookupFails(path, comps, name);
              return null;
            }
            level := next;
            comps := comps + [name];
            buf := seq(NAME_MAX, _ => '\0');
          }
          j := -1;
        } else {
          assert buf[j := p][..j + 1] == buf[..j] + [p];
          buf := buf[j := p];
        }
        i, j := i + 1, j + 1;
        assert p == '/' ==> buf[..j] == [];
      }
      ScanEnds(path, comps, buf[..j]);
    }

    /** The callbacks of a node of filesystem `fs`, after its mount callback where there is one. */
    ghost function Mounted(ops: Ops, fs: Option<nat>): Ops
      requires filesystems.Valid()
      reads filesystems, filesystems.entries, filesystems.Nodes()
    {
      if fs.Some? && filesystems.Lookup(fs.value).Some? then filesystems.Lookup(fs.value).value else ops
    }

    method MountAtRoot(node: FsNode) returns (c: TreeNode)
      requires Valid()
      modifies this`nodes, this`where, root, node`vfsPtr
      ensures Valid() && nodes == old(nodes) + {c} && fresh(c) && c.data == node && node.vfsPtr == root
      ensures GrownTo(old(Now()), Now(), root, Components("/") + [node.name])
      ensures var full := Components("/") + [node.name];
              ShortNames(full) && old(Resolve(Now(), root, full)).None? ==> At(full) == Some(c)
    {
      assert Components("/") == [];
      assert ShortNames([]) && Resolve(Now(), root, []) == Some(root);
      hide Located, Closed, Resolve, AddsPath, GrownTo, ShortNames, Components;
      ghost var t := Now();
      node.vfsPtr := root;
      assert Now() == t;
      GrownFromStart(t, root);
      c := InsertChild(root, node, []);
      MountGrows(t, t, Now(), root, [], node.name, c);
    }

    /** Mounting below a directory path: the directories, the filesystem's callback, the node. */
    method MountBelow(path: string, node: FsNode) returns (c: TreeNode)
      requires Valid() && path != [] && path[0] == '/' && FitsBuffer(path) && filesystems.Valid()
      modifies this`nodes, this`where, nodes, node
      ensures Valid() && old(nodes) <= nodes && (forall n :: n in nodes && n !in old(nodes) ==> fresh(n))
      ensures c.data == node && fresh(c) && c in nodes && node.name == old(node.name)
      ensures GrownTo(old(Now()), Now(), root, Components(path) + [node.name])
      ensures var full := Components(path) + [node.name];
              ShortNames(full) && old(Resolve(Now(), root, full)).None? ==> At(full) == Some(c)
      ensures forall n :: n in nodes && n !in old(nodes) && n != c ==>
                fresh(n.data) && n.data.kind == FsDirectory && n.data.ops == NoOps
      ensures node.vfsPtr == c && !node.ref && node.kind == old(node.kind) && node.fs == old(node.fs)
      ensures node.device == old(node.device)
      ensures filesystems.Valid() && node.ops == Mounted(old(node.ops), node.fs)
    {
      hide Vfs.Now, Located, Closed, Resolve, Scan, Components, FitsBuffer, ShortNames, AddsPath, GrownTo,
           HashMap.Linked, HashMap.Homed, HashMap.Apart, HashMap.Bucket, HashMap.Find, HashMap.Contents;
      var level := Traverse(path, node);
      ghost var t := Now();
      c := Attach(level, node, Components(path));
      MountGrows(old(Now()), t, Now(), root, Components(path), node.name, c);
    }

    /** The end of vfs_mount, below the directory `level`. */
    method Attach(level: TreeNode, node: FsNode, ghost path: seq<string>) returns (c: TreeNode)
      requires Valid() && filesystems.Valid() && level in nodes && ShortNames(path) && At(path) == Some(level)
      modifies this`nodes, this`where, level`children, node
      ensures Valid() && fresh(c) && c.data == node && nodes == old(nodes) + {c}
      ensures AddsPath(old(Now()), Now(), root, path + [node.name], c)
      ensures node.vfsPtr == c && !node.ref && node.name == old(node.name) && node.kind == old(node.kind)
      ensures node.fs == old(node.fs) && node.device == old(node.device)
      ensures filesystems.Valid() && node.ops == Mounted(old(node.ops), node.fs)
    {
      hide Vfs.Now, Located, Closed, Resolve, ShortNames, AddsPath, Insert,
           HashMap.Linked, HashMap.Homed, HashMap.Apart, HashMap.Bucket, HashMap.Find, HashMap.Contents;
      CallMount(node);
      c := InsertChild(level, node, path);
      Publish(node, c);
    }

    /** The filesystem's mount callback, for a node of a registered filesystem. */
    method CallMount(node: FsNode)
      requires Valid() && filesystems.Valid()
      modifies node`ops
      ensures Now() == old(Now()) && filesystems.Valid()
      ensures node.ops == Mounted(old(node.ops), node.fs)
    {
      hide Located, Closed,
           HashMap.Linked, HashMap.Homed, HashMap.Apart, HashMap.Bucket, HashMap.Find, HashMap.Contents;
      if node.fs.Some? {
        var filesystem := filesystems.Get(node.fs.value);
        if filesystem.Some? {
          Install(node, filesystem.value);
        }
      }
    }

    /** ramfs_mount and the like. */
    method Install(node: FsNode, ops: Ops)
      requires filesystems.Valid()
      modifies node`ops
      ensures node.ops == ops && Now() == old(Now()) && filesystems.Valid()
      ensures forall k :: filesystems.Lookup(k) == old(filesystems.Lookup(k))
    {
      node.ops := ops;
    }

    method Publish(node: FsNode, c: TreeNode)
      requires Valid()
      modifies node`vfsPtr, node`ref
      ensures Now() == old(Now()) && node.vfsPtr == c && !node.ref
    {
      node.vfsPtr := c;
      node.ref := false;
      assert Now() == old(Now());
    }

    /** vfs_mount. A null `node` only looks up. Otherwise `node` is mounted below `path` as tree
        node `c`: the tree gains the directories missing on the way and the node's own path unless
        that was taken, and loses nothing. Looking up "/" dereferences the null node in the code. */
    method Mount(path: string, node: FsNode?) returns (r: FsNode?, ghost c: TreeNode?)
      requires Valid() && FitsBuffer(path)
      requires if node == null then path != "/" else filesystems.Valid()
      modifies this`nodes, this`where, nodes, node
      ensures Valid() && old(nodes) <= nodes && (forall n :: n in nodes && n !in old(nodes) ==> fresh(n))
      ensures path == [] || path[0] != '/' ==> r == null && c == null && Now() == old(Now())
      ensures (path == [] || path[0] != '/') && node != null ==> unchanged(node)
      ensures path == "/" && node != null ==>
                node.vfsPtr == root && node.ops == old(node.ops) && node.ref == old(node.ref)
      ensures path != [] && path[0] == '/' && node == null ==>
                Now() == old(Now()) && r == match At(Components(path)) case Some(n) => n.data case None => null
      ensures path != [] && path[0] == '/' && node != null ==>
                && r == node && c != null && c.data == node && fresh(c) && c in nodes
                && GrownTo(old(Now()), Now(), root, Components(path) + [node.name])
      ensures path != [] && path[0] == '/' && node != null ==>
                var full := Components(path) + [node.name];
                ShortNames(full) && old(Resolve(Now(), root, full)).None? ==> At(full) == Some(c)
      ensures path != [] && path[0] == '/' && path != "/" && node != null ==>
                && node.vfsPtr == c && !node.ref && node.name == old(node.name) && node.kind == old(node.kind)
                && node.fs == old(node.fs) && node.device == old(node.device)
                && filesystems.Valid() && node.ops == Mounted(old(node.ops), node.fs)
      ensures forall n :: n in nodes && n !in old(nodes) && n != c ==>
                fresh(n.data) && n.data.kind == FsDirectory && n.data.ops == NoOps
    {
      hide Located, Closed, Resolve, AddsPath, GrownTo, Scan, Components, FitsBuffer, ShortNames;
      c := null;
      if path == [] || path[0] != '/' {
        r := null;
      } else if node == null {
        var level := Traverse(path, null);
        r := if level == null then null else level.data;
      } else if path == "/" {
        c := MountAtRoot(node);
        r := node;
      } else {
        c := MountBelow(path, node);
        r := node;
      }
    }

    /** vfs_register_fs: a name already registered keeps its filesystem. */
    method RegisterFs(name: nat, ops: Ops)
      requires filesystems.Valid()
      modifies filesystems`chains, filesystems.entries, filesystems.Nodes()
      ensures filesystems.Valid()
      ensures forall x :: x in filesystems.Nodes() ==> x in old(filesystems.Nodes()) || fresh(x)
      ensures forall k :: filesystems.Lookup(k) == if k == name && old(filesystems.Lookup(name)).None? then Some(ops)
                                                   else old(filesystems.Lookup(k))
    {
      hide HashMap.Linked, HashMap.Homed, HashMap.Apart, HashMap.Bucket, HashMap.Find, HashMap.Contents;
      var present := filesystems.Get(name);
      if present.None? {
        filesystems.Insert(name, ops);
      }
    }

    /** kopen: the node a path leads to, marked open, unless it is open already. */
    method KOpen(path: string) returns (r: FsNode?)
      requires Valid() && path != [] && path[0] == '/' && path != "/" && FitsBuffer(path)
      modifies this`nodes, this`where, nodes, Data()
      ensures Valid() && nodes == old(nodes) && Now() == old(Now())
      ensures r == match old(At(Components(path)))
                   case Some(n) => (if old(n.data.ref) then null else n.data)
                   case None => null
      ensures r != null ==> r.ref == (r.kind != FsDirectory)
      ensures forall d :: d in Data() ==> d.ops == old(d.ops) && d.kind == old(d.kind) && d.device == old(d.device)
      ensures forall d :: d in Data() && d != r ==> d.ref == old(d.ref)
    {
      hide Located, Closed, Resolve, AddsPath, GrownTo, Scan, Components, FitsBuffer, ShortNames;
      ghost var c;
      var node;
      node, c := Mount(path, null);
      if node == null {
        return null;
      }
      var status := Open(node);
      r := if status != Busy then node else null;
    }

    /** vfs_open. */
    method Open(node: FsNode) returns (status: Status)
      requires Valid()
      modifies node`ref
      ensures Now() == old(Now())
      ensures status == if old(node.ref) then Busy else if node.kind == FsDirectory then IsDir
                        else if node.ops == Ramfs then Fine else BadFd
      ensures node.ref == (old(node.ref) || node.kind != FsDirectory)
    {
      if node.ref {
        status := Busy;
      } else if node.kind == FsDirectory {
        status := IsDir;
      } else {
        node.ref := true;
        status := if node.ops == Ramfs then Fine else BadFd;
      }
      assert Now() == old(Now());
    }

    /** kclose. */
    method KClose(node: FsNode) returns (status: Status)
      requires Valid()
      modifies node`ref
      ensures Now() == old(Now())
      ensures if old(node.ref) && node.ops == Ramfs then status == Fine && !node.ref
              else status == BadFd && node.ref == old(node.ref)
    {
      if node.ref && node.ops == Ramfs {
        node.ref := false;
        status := Fine;
      } else {
        status := BadFd;
      }
      assert Now() == old(Now());
    }
  }

  datatype Status = Fine | Busy | IsDir | BadFd
}
