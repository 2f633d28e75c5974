/** Loading a ustar archive into the file tree, and loading an object back out of it. */
module Ramdisk {
  import opened Arith
  import opened Paths
  import opened FsTree
  import Tar
  import opened Vfs
  import HashMap

  /** Where the ramdisk mounts a member; entries whose base name is empty are directories. */
  ghost function Place(m: Tar.Member): Option<seq<string>> {
    if BaseName(m.name) == [] then None else Some(MountPath(m.name))
  }

  /** A name that ends with a slash behind its first character is a directory's. */
  lemma OnlyFilesHavePlaces(m: Tar.Member)
    requires m.name != []
    ensures Place(m) == if |m.name| > 1 && m.name[|m.name| - 1] == '/' then None else Some(MountPath(m.name))
  {
    var k := LastSlash(m.name, |m.name|);
  }

  ghost function Places(members: seq<Tar.Member>): (s: seq<Option<seq<string>>>)
    ensures |s| == |members| && forall j :: 0 <= j < |s| ==> s[j] == Place(members[j])
  {
    seq(|members|, j requires 0 <= j < |members| => Place(members[j]))
  }

  // ----- the tree as the archive is loaded -----

  /** One of the first `i` files lies at `q` or below. */
  ghost predicate Needed(places: seq<Option<seq<string>>>, i: nat, q: seq<string>)
    requires i <= |places|
  {
    exists j :: 0 <= j < i && places[j].Some? && q <= places[j].value
  }

  /** Of the paths that led nowhere, exactly those the first `i` files need lead somewhere. */
  ghost predicate Grown<N>(t: Snap<N>, u: Snap<N>, root: N, places: seq<Option<seq<string>>>, i: nat)
    requires Closed(t) && Closed(u) && root in t && root in u && i <= |places|
  {
    forall q {:trigger Resolve(u, root, q)} :: ShortNames(q) ==>
      if Resolve(t, root, q).Some? then Resolve(u, root, q) == Resolve(t, root, q)
      else Resolve(u, root, q).Some? <==> Needed(places, i, q)
  }

  /** File `j` found its place free: nothing was there, and no earlier file needs it. */
  ghost predicate Free<N>(t: Snap<N>, root: N, places: seq<Option<seq<string>>>, j: nat)
    requires Closed(t) && root in t && j < |places| && places[j].Some?
  {
    Resolve(t, root, places[j].value).None? && !Needed(places, j, places[j].value)
  }

  ghost predicate ShortPlaces(places: seq<Option<seq<string>>>) {
    forall j :: 0 <= j < |places| && places[j].Some? ==> ShortNames(places[j].value)
  }

  /** Each of the first `i` files has a tree node of its own, and its place leads to that node
      exactly when the file found it free. */
  ghost predicate Found<N>(t: Snap<N>, u: Snap<N>, root: N, places: seq<Option<seq<string>>>, i: nat,
                           trees: map<nat, N>)
    requires Closed(t) && Closed(u) && root in t && root in u && i <= |places|
  {
    && (forall j: nat :: j in trees <==> j < i && places[j].Some?)
    && forall j: nat :: j in trees ==>
         (trees[j] in u && (Resolve(u, root, places[j].value) == Some(trees[j]) <==> Free(t, root, places, j)))
  }

  /** Mounting the next file. */
  lemma MountLoads<N>(t: Snap<N>, u: Snap<N>, v: Snap<N>, root: N, places: seq<Option<seq<string>>>, i: nat,
                      trees: map<nat, N>, c: N)
    requires Closed(t) && Closed(u) && Closed(v) && root in t && root in u && root in v && i < |places|
    requires ShortPlaces(places) && places[i].Some?
    requires Grown(t, u, root, places, i) && Found(t, u, root, places, i, trees)
    requires GrownTo(u, v, root, places[i].value) && u.Keys <= v.Keys && c in v && c !in u
    requires Resolve(u, root, places[i].value).None? ==> Resolve(v, root, places[i].value) == Some(c)
    ensures Grown(t, v, root, places, i + 1) && Found(t, v, root, places, i + 1, trees[i := c])
  {
    hide Resolve, ShortNames, Closed;
    var full := places[i].value;
    forall q | ShortNames(q)
      ensures if Resolve(t, root, q).Some? then Resolve(v, root, q) == Resolve(t, root, q)
              else Resolve(v, root, q).Some? <==> Needed(places, i + 1, q)
    {
      assert Needed(places, i + 1, q) <==> Needed(places, i, q) || q <= full;
      var before, now := Resolve(u, root, q), Resolve(v, root, q);
    }
    forall j: nat | j in trees
      ensures Resolve(v, root, places[j].value) == Resolve(u, root, places[j].value)
    {
      var q := places[j].value;
      assert q <= q && Needed(places, i, q);
      var before, now := Resolve(u, root, q), Resolve(v, root, q);
    }
    assert Resolve(u, root, full).Some? ==> Resolve(v, root, full) == Resolve(u, root, full);
    assert Free(t, root, places, i) <==> Resolve(u, root, full).None?;
  }

  lemma SkipLoads<N>(t: Snap<N>, u: Snap<N>, root: N, places: seq<Option<seq<string>>>, i: nat, trees: map<nat, N>)
    requires Closed(t) && Closed(u) && root in t && root in u && i < |places| && places[i].None?
    requires Grown(t, u, root, places, i) && Found(t, u, root, places, i, trees)
    ensures Grown(t, u, root, places, i + 1) && Found(t, u, root, places, i + 1, trees)
  {
    forall q
      ensures Needed(places, i + 1, q) == Needed(places, i, q)
    {
    }
  }

  lemma StartLoads<N>(t: Snap<N>, root: N, places: seq<Option<seq<string>>>)
    requires Closed(t) && root in t
    ensures Grown(t, t, root, places, 0) && Found(t, t, root, places, 0, map[])
  {
  }

  // ----- names -----

  lemma DirectoryFits(name: string)
    requires |name| < Tar.NAME_FIELD
    ensures FitsBuffer(Canonical(DirName(name)))
    ensures Components(Canonical(DirName(name))) + [BaseName(name)] == MountPath(name)
  {
    var path := Canonical(DirName(name));
    forall k | 0 <= k < |path|
      ensures |Scan(path[1..][..k]).1| < NAME_MAX
    {
      SegmentsAreShort(path[1..][..k]);
    }
    CanonicalSplits(DirName(name));
  }

  lemma PlacesAreShort(members: seq<Tar.Member>)
    requires forall m :: m in members ==> |m.name| < Tar.NAME_FIELD
    ensures ShortPlaces(Places(members))
  {
    hide Place, ShortNames;
    forall j | 0 <= j < |members| && Place(members[j]).Some?
      ensures ShortNames(Place(members[j]).value)
    {
      assert members[j] in members;
      PlaceIsShort(members[j]);
    }
  }

  lemma PlaceIsShort(m: Tar.Member)
    requires |m.name| < Tar.NAME_FIELD && Place(m).Some?
    ensures ShortNames(Place(m).value)
  {
    SegmentsAreShort(DirName(m.name));
  }

  // ----- ramdisk_init -----

  ghost function Files(trees: map<nat, TreeNode>): set<FsNode> {
    set j | j in trees :: trees[j].data
  }

  ghost function Devices(trees: map<nat, TreeNode>): set<Tar.TarBlock>
    reads Files(trees)
  {
    set f | f in Files(trees) && f.device != null :: f.device
  }

  /** What tar_read reports of member `j`. */
  ghost function BlockOf(members: seq<Tar.Member>, tar: nat, j: nat): Tar.Block
    requires j < |members|
  {
    Tar.Block(members[j].name, |members[j].content|, Tar.Offset(members, tar, j) + Tar.BLOCK)
  }

  /** A closed ramfs file with the block. */
  ghost predicate Describes(f: FsNode, b: Tar.Block)
    reads f, f.device
  {
    && f.kind == FsFile && f.ops == Ramfs && !f.ref
    && f.device != null && f.device.Contents() == b
  }

  ghost predicate Described(trees: map<nat, TreeNode>, members: seq<Tar.Member>, tar: nat)
    reads Files(trees), Devices(trees)
  {
    forall j: nat :: j in trees ==>
      j < |members| && Describes(trees[j].data, BlockOf(members, tar, j))
  }

  /** No file has the block yet. */
  ghost predicate Spare(trees: map<nat, TreeNode>, block: Tar.TarBlock)
    reads Files(trees)
  {
    forall j: nat :: j in trees ==> trees[j].data.device != block
  }

  /** The loaded part of the archive. */
  ghost predicate Loaded(vfs: Vfs, t: Snap<TreeNode>, members: seq<Tar.Member>, i: nat, trees: map<nat, TreeNode>,
                         tar: nat)
    reads vfs, vfs.nodes, vfs.Data(), Files(trees), Devices(trees)
  {
    && vfs.Valid() && vfs.HasBlocks() && Closed(t) && vfs.root in t && i <= |members|
    && Grown(t, vfs.Now(), vfs.root, Places(members), i)
    && Found(t, vfs.Now(), vfs.root, Places(members), i, trees)
    && Described(trees, members, tar)
  }

  ghost predicate Registered(vfs: Vfs, key: nat)
    reads vfs.filesystems, vfs.filesystems.entries, vfs.filesystems.Nodes()
  {
    vfs.filesystems.Valid() && vfs.filesystems.Lookup(key) == Some(Ramfs)
  }

  /** A file node for `block`, mounted in `dir`. */
  method MountFile(vfs: Vfs, base: string, dir: string, key: nat, block: Tar.TarBlock) returns (ghost c: TreeNode)
    requires vfs.Valid() && dir != [] && dir[0] == '/' && dir != "/" && FitsBuffer(dir)
    requires Registered(vfs, key)
    modifies vfs`nodes, vfs`where, vfs.nodes
    ensures vfs.Valid() && old(vfs.nodes) <= vfs.nodes
    ensures forall n :: n in vfs.nodes && n !in old(vfs.nodes) ==> fresh(n) && fresh(n.data)
    ensures Registered(vfs, key) && (old(vfs.HasBlocks()) ==> vfs.HasBlocks())
    ensures c in vfs.nodes && c !in old(vfs.nodes) && fresh(c.data)
    ensures c.data.kind == FsFile && c.data.ops == Ramfs && !c.data.ref && c.data.device == block
    ensures var full := Components(dir) + [base];
            && GrownTo(old(vfs.Now()), vfs.Now(), vfs.root, full)
            && (ShortNames(full) && old(Resolve(vfs.Now(), vfs.root, full)).None? ==> vfs.At(full) == Some(c))
  {
    hide FitsBuffer, GrownTo, ShortNames, Components, Rooted, Resolve,
         HashMap.Linked, HashMap.Homed, HashMap.Apart, HashMap.Bucket, HashMap.Find, HashMap.Contents;
    ghost var u := vfs.Now();
    var file := new FsNode(base, FsFile, Some(key), block);
    assert vfs.Now() == u;
    var r;
    r, c := vfs.Mount(dir, file);
  }

  /** The same beside the files mounted so far. */
  method MountNext(vfs: Vfs, base: string, dir: string, key: nat, block: Tar.TarBlock, ghost members: seq<Tar.Member>,
                   ghost i: nat, ghost trees: map<nat, TreeNode>, ghost tar: nat)
    returns (ghost c: TreeNode, next: Tar.TarBlock)
    requires vfs.Valid() && dir != [] && dir[0] == '/' && dir != "/" && FitsBuffer(dir)
    requires Registered(vfs, key)
    requires i < |members| && i !in trees && Described(trees, members, tar) && Spare(trees, block)
    requires block.Contents() == BlockOf(members, tar, i)
    modifies vfs`nodes, vfs`where, vfs.nodes
    ensures vfs.Valid() && old(vfs.nodes) <= vfs.nodes
    ensures forall n :: n in vfs.nodes && n !in old(vfs.nodes) ==> fresh(n) && fresh(n.data)
    ensures Registered(vfs, key) && (old(vfs.HasBlocks()) ==> vfs.HasBlocks())
    ensures c in vfs.nodes && c !in old(vfs.nodes)
    ensures Described(trees[i := c], members, tar)
    ensures Spare(trees[i := c], next) && fresh(next)
    ensures var full := Components(dir) + [base];
            && GrownTo(old(vfs.Now()), vfs.Now(), vfs.root, full)
            && (ShortNames(full) && old(Resolve(vfs.Now(), vfs.root, full)).None? ==> vfs.At(full) == Some(c))
  {
    hide FitsBuffer, GrownTo, ShortNames, Components, Rooted, Resolve, Tar.Offset, Registered, Vfs.HasBlocks, Vfs.Now;
    c := MountFile(vfs, base, dir, key, block);
    assert Described(trees, members, tar);
    next := NextBlock(vfs, key, members, trees[i := c], tar);
  }

  /** A new spare block. */
  method NextBlock(vfs: Vfs, key: nat, ghost members: seq<Tar.Member>, ghost trees: map<nat, TreeNode>, ghost tar: nat)
    returns (next: Tar.TarBlock)
    requires vfs.Valid() && Registered(vfs, key) && Described(trees, members, tar)
    ensures vfs.Valid() && Registered(vfs, key) && Described(trees, members, tar) && Spare(trees, next) && fresh(next)
    ensures vfs.Now() == old(vfs.Now()) && (old(vfs.HasBlocks()) ==> vfs.HasBlocks())
  {
    hide Rooted, Tar.Offset, HashMap.Linked, HashMap.Homed, HashMap.Apart, HashMap.Bucket, HashMap.Find,
         HashMap.Contents;
    ghost var u := vfs.Now();
    next := new Tar.TarBlock();
    assert vfs.Now() == u;
  }

  /** One turn of ramdisk_init's loop: a file gets a node of its own and keeps the block, a
      directory entry does neither. */
  method MountMember(vfs: Vfs, block: Tar.TarBlock, key: nat, ghost t: Snap<TreeNode>, ghost members: seq<Tar.Member>,
                     ghost i: nat, ghost trees: map<nat, TreeNode>, ghost tar: nat)
    returns (next: Tar.TarBlock, ghost grown: map<nat, TreeNode>)
    requires Loaded(vfs, t, members, i, trees, tar) && i < |members| && Spare(trees, block)
    requires forall m :: m in members ==> m.Ok()
    requires block.Contents() == BlockOf(members, tar, i)
    requires Registered(vfs, key)
    modifies vfs`nodes, vfs`where, vfs.nodes
    ensures old(vfs.nodes) <= vfs.nodes && Registered(vfs, key)
    ensures forall n :: n in vfs.nodes && n !in old(vfs.nodes) ==> fresh(n) && fresh(n.data)
    ensures Loaded(vfs, t, members, i + 1, grown, tar)
    ensures Spare(grown, next) && (next == block || fresh(next))
  {
    hide Grown, Found, Closed, Located, Resolve, Tar.Member.Ok, Tar.Offset, BaseName, DirName, Canonical,
         HashMap.Linked, HashMap.Homed, HashMap.Apart, HashMap.Bucket, HashMap.Find,
         HashMap.Contents;
    MemberName(members, tar, i, block);
    ghost var u := vfs.Now();
    var base := GetBaseName(block.name);
    var dir := GetDirName(block.name);
    assert vfs.Now() == u && Described(trees, members, tar);
    next, grown := MountOrSkip(vfs, block, base, Canonical(dir), key, t, members, i, trees, tar);
  }

  method MountOrSkip(vfs: Vfs, block: Tar.TarBlock, base: string, dir: string, key: nat, ghost t: Snap<TreeNode>,
                     ghost members: seq<Tar.Member>, ghost i: nat, ghost trees: map<nat, TreeNode>, ghost tar: nat)
    returns (next: Tar.TarBlock, ghost grown: map<nat, TreeNode>)
    requires Loaded(vfs, t, members, i, trees, tar) && i < |members| && Spare(trees, block)
    requires forall m :: m in members ==> m.Ok()
    requires block.Contents() == BlockOf(members, tar, i)
    requires base == BaseName(block.name) && dir == Canonical(DirName(block.name)) && Registered(vfs, key)
    modifies vfs`nodes, vfs`where, vfs.nodes
    ensures old(vfs.nodes) <= vfs.nodes && Registered(vfs, key)
    ensures forall n :: n in vfs.nodes && n !in old(vfs.nodes) ==> fresh(n) && fresh(n.data)
    ensures Loaded(vfs, t, members, i + 1, grown, tar)
    ensures Spare(grown, next) && (next == block || fresh(next))
  {
    hide *;
    LoadedParts(vfs, t, members, i, trees, tar);
    MemberName(members, tar, i, block);
    ghost var u := vfs.Now();
    if base != [] {
      ghost var c;
      c, next := MountNext(vfs, base, dir, key, block, members, i, trees, tar);
      grown := trees[i := c];
      MountedLoads(vfs, t, u, members, i, trees, c);
    } else {
      grown := trees;
      next := block;
      SkippedLoads(vfs, t, members, i, trees);
    }
    PartsAreLoaded(vfs, t, members, i + 1, grown, tar);
  }

  lemma MountedLoads(vfs: Vfs, t: Snap<TreeNode>, u: Snap<TreeNode>, members: seq<Tar.Member>, i: nat,
                     trees: map<nat, TreeNode>, c: TreeNode)
    requires vfs.Valid() && Closed(t) && Closed(u) && vfs.root in t && vfs.root in u && i < |members|
    requires Grown(t, u, vfs.root, Places(members), i) && Found(t, u, vfs.root, Places(members), i, trees)
    requires ShortPlaces(Places(members)) && BaseName(members[i].name) != []
    requires u.Keys <= vfs.nodes && c in vfs.nodes && c !in u
    requires var full := MountPath(members[i].name);
             && GrownTo(u, vfs.Now(), vfs.root, full)
             && (ShortNames(full) && Resolve(u, vfs.root, full).None? ==> vfs.At(full) == Some(c))
    ensures Closed(vfs.Now()) && vfs.root in vfs.Now()
    ensures Grown(t, vfs.Now(), vfs.root, Places(members), i + 1)
    ensures Found(t, vfs.Now(), vfs.root, Places(members), i + 1, trees[i := c])
  {
    hide Grown, Found, GrownTo, Closed, Located, Resolve, ShortNames, MountPath, BaseName;
    assert Places(members)[i] == Some(MountPath(members[i].name)) by {
      assert Place(members[i]) == Some(MountPath(members[i].name));
    }
    MountLoads(t, u, vfs.Now(), vfs.root, Places(members), i, trees, c);
  }

  lemma SkippedLoads(vfs: Vfs, t: Snap<TreeNode>, members: seq<Tar.Member>, i: nat, trees: map<nat, TreeNode>)
    requires vfs.Valid() && Closed(t) && vfs.root in t && Closed(vfs.Now()) && vfs.root in vfs.Now()
    requires i < |members| && BaseName(members[i].name) == []
    requires Grown(t, vfs.Now(), vfs.root, Places(members), i)
    requires Found(t, vfs.Now(), vfs.root, Places(members), i, trees)
    ensures Grown(t, vfs.Now(), vfs.root, Places(members), i + 1)
    ensures Found(t, vfs.Now(), vfs.root, Places(members), i + 1, trees)
  {
    hide Grown, Found, Closed, Located, Resolve, BaseName;
    SkipLoads(t, vfs.Now(), vfs.root, Places(members), i, trees);
  }

  lemma LoadedParts(vfs: Vfs, t: Snap<TreeNode>, members: seq<Tar.Member>, i: nat, trees: map<nat, TreeNode>, tar: nat)
    requires Loaded(vfs, t, members, i, trees, tar)
    ensures vfs.Valid() && vfs.HasBlocks() && Closed(t) && Closed(vfs.Now()) && vfs.root in t && vfs.root in vfs.Now()
    ensures Grown(t, vfs.Now(), vfs.root, Places(members), i)
    ensures Found(t, vfs.Now(), vfs.root, Places(members), i, trees)
    ensures Described(trees, members, tar) && i !in trees && i <= |members|
  {
    hide Grown, Resolve, Described, Closed, Located;
  }

  lemma PartsAreLoaded(vfs: Vfs, t: Snap<TreeNode>, members: seq<Tar.Member>, i: nat, trees: map<nat, TreeNode>,
                       tar: nat)
    requires vfs.Valid() && vfs.HasBlocks() && Closed(t) && Closed(vfs.Now()) && vfs.root in t && vfs.root in vfs.Now()
    requires i <= |members| && Grown(t, vfs.Now(), vfs.root, Places(members), i)
    requires Found(t, vfs.Now(), vfs.root, Places(members), i, trees) && Described(trees, members, tar)
    ensures Loaded(vfs, t, members, i, trees, tar)
  {
    hide Grown, Found, Described, Closed, Located;
  }

  lemma MemberName(members: seq<Tar.Member>, tar: nat, i: nat, block: Tar.TarBlock)
    requires i < |members| && block.Contents() == BlockOf(members, tar, i) && forall m :: m in members ==> m.Ok()
    ensures block.name == members[i].name != [] && FitsBuffer(Canonical(DirName(block.name)))
    ensures Components(Canonical(DirName(block.name))) + [BaseName(block.name)] == MountPath(members[i].name)
    ensures var dir := Canonical(DirName(block.name)); dir != [] && dir[0] == '/' && dir != "/"
    ensures ShortPlaces(Places(members))
  {
    assert members[i] in members;
    PlacesAreShort(members);
    hide FitsBuffer, Components, MountPath, ShortPlaces, Tar.Offset;
    DirectoryFits(block.name);
  }

  /** Reading the next member into the spare block. */
  method ReadNext(vfs: Vfs, mem: Tar.Memory, tar: nat, block: Tar.TarBlock, i: nat, ghost t: Snap<TreeNode>,
                  ghost members: seq<Tar.Member>, ghost trees: map<nat, TreeNode>, ghost key: nat)
    returns (more: bool)
    requires Registered(vfs, key)
    requires Loaded(vfs, t, members, i, trees, tar) && Spare(trees, block) && Tar.IsArchive(mem, tar, members)
    modifies block
    ensures Registered(vfs, key)
    ensures Loaded(vfs, t, members, i, trees, tar) && Spare(trees, block)
    ensures more == (i < |members|)
    ensures more ==> block.Contents() == BlockOf(members, tar, i)
  {
    hide *;
    LoadedParts(vfs, t, members, i, trees, tar);
    ReadIsBlockOf(mem, tar, members, i);
    more := FillBlock(vfs, mem, tar, block, i, key, members, trees);
    PartsAreLoaded(vfs, t, members, i, trees, tar);
  }

  lemma ReadIsBlockOf(mem: Tar.Memory, tar: nat, members: seq<Tar.Member>, i: nat)
    requires Tar.IsArchive(mem, tar, members) && i <= |members|
    ensures Tar.Read(mem, tar, i) == if i < |members| then Some(BlockOf(members, tar, i)) else None
  {
    hide Tar.IsArchive, Tar.Read, Tar.Holds;
    Tar.ReadInvertsArchive(mem, tar, members, i);
  }

  /** The spare block belongs to no file. */
  method FillBlock(vfs: Vfs, mem: Tar.Memory, tar: nat, block: Tar.TarBlock, i: nat, ghost key: nat,
                   ghost members: seq<Tar.Member>, ghost trees: map<nat, TreeNode>)
    returns (more: bool)
    requires vfs.Valid() && vfs.HasBlocks() && Registered(vfs, key) && Described(trees, members, tar)
    requires Spare(trees, block)
    modifies block
    ensures vfs.Valid() && vfs.HasBlocks() && Registered(vfs, key) && Described(trees, members, tar)
    ensures vfs.Now() == old(vfs.Now()) && Spare(trees, block)
    ensures more == Tar.Read(mem, tar, i).Some?
    ensures more ==> block.Contents() == Tar.Read(mem, tar, i).value
  {
    hide Rooted, Tar.Offset, Tar.Read, HashMap.Linked, HashMap.Homed, HashMap.Apart, HashMap.Bucket, HashMap.Find,
         HashMap.Contents;
    ghost var u := vfs.Now();
    more := Tar.TarRead(mem, tar, block, i);
    assert vfs.Now() == u;
  }

  /** Before the loop: the filesystem is registered and a first block allocated. */
  method Prepare(vfs: Vfs, key: nat, ghost members: seq<Tar.Member>, ghost tar: nat) returns (block: Tar.TarBlock)
    requires vfs.Valid() && vfs.HasBlocks() && vfs.filesystems.Valid()
    requires vfs.filesystems.Lookup(key) == None || vfs.filesystems.Lookup(key) == Some(Ramfs)
    modifies vfs.filesystems`chains, vfs.filesystems.entries, vfs.filesystems.Nodes()
    ensures Loaded(vfs, old(vfs.Now()), members, 0, map[], tar) && fresh(block) && Spare(map[], block)
    ensures Registered(vfs, key)
  {
    hide Grown, Found, Closed, Located, Resolve,
         HashMap.Linked, HashMap.Homed, HashMap.Apart, HashMap.Bucket, HashMap.Find, HashMap.Contents;
    ghost var t := vfs.Now();
    StartLoads(t, vfs.root, Places(members));
    vfs.RegisterFs(key, Ramfs);
    block := new Tar.TarBlock();
    assert vfs.Now() == t;
  }

  /** ramdisk_init. `key` is the address of the filesystem's name. Afterwards a file's place
      leads to the node holding that file's block exactly when it found its place free, every
      path that led somewhere before still leads to the same node, and nothing else does except
      the files' directories. */
  method RamdiskInit(vfs: Vfs, mem: Tar.Memory, tar: nat, key: nat, ghost members: seq<Tar.Member>)
    returns (ghost trees: map<nat, TreeNode>)
    requires vfs.Valid() && vfs.HasBlocks() && vfs.filesystems.Valid()
    requires Tar.IsArchive(mem, tar, members) && forall m :: m in members ==> m.Ok()
    requires vfs.filesystems.Lookup(key) == None || vfs.filesystems.Lookup(key) == Some(Ramfs)
    modifies vfs.filesystems`chains, vfs.filesystems.entries, vfs.filesystems.Nodes()
    modifies vfs`nodes, vfs`where, vfs.nodes
    ensures Loaded(vfs, old(vfs.Now()), members, |members|, trees, tar)
    ensures old(vfs.nodes) <= vfs.nodes
    ensures forall n :: n in vfs.nodes && n !in old(vfs.nodes) ==> fresh(n) && fresh(n.data)
  {
    hide *;
    ghost var t := vfs.Now();
    var block := Prepare(vfs, key, members, tar);
    trees := map[];
    var i := 0;
    while true
      invariant i <= |members| && Loaded(vfs, t, members, i, trees, tar) && Spare(trees, block)
      invariant fresh(block) && Registered(vfs, key) && old(vfs.nodes) <= vfs.nodes
      invariant forall n :: n in vfs.nodes && n !in old(vfs.nodes) ==> fresh(n) && fresh(n.data)
      decreases |members| - i
    {
      var more := ReadNext(vfs, mem, tar, block, i, t, members, trees, key);
      if !more {
        break;
      }
      block, trees := MountMember(vfs, block, key, t, members, i, trees, tar);
      i := i + 1;
    }
  }

  // ----- binfmt_load -----

  /** What loading the object at `path` gives: all bytes of a closed ramfs file. */
  ghost function Object(vfs: Vfs, mem: Tar.Memory, path: string): Option<string>
    requires vfs.Valid() && path != []
    reads vfs, vfs.nodes, vfs.Data(), (set d | d in vfs.Data() && d.device != null :: d.device)
  {
    match vfs.At(Components(path))
    case None => None
    case Some(n) =>
      if n.data.ref || n.data.kind == FsDirectory || n.data.ops != Ramfs || n.data.device == null then None
      else Some(Tar.Chars(mem, n.data.device.data, n.data.device.size))
  }

  /** binfmt_load once the file is open: stat, read, close. */
  method LoadOpened(vfs: Vfs, mem: Tar.Memory, f: FsNode) returns (r: Option<string>)
    requires vfs.Valid() && (f.ops == Ramfs ==> f.device != null)
    modifies f`ref
    ensures vfs.Now() == old(vfs.Now())
    ensures r == if f.ops == Ramfs && old(f.ref) then Some(Tar.Chars(mem, f.device.data, f.device.size)) else None
    ensures f.ref == (old(f.ref) && r.None?)
  {
    hide Rooted;
    ghost var t := vfs.Now();
    if f.ops != Ramfs {
      return None;  // without the callback, fstat fails
    }
    var size := f.device.size;
    if !f.ref {
      return None;  // and so does fread for a file that is not open
    }
    var data := Tar.Chars(mem, f.device.data, size);
    var status := vfs.KClose(f);
    r := if status == Fine then Some(data) else None;
  }

  /** binfmt_load, of what the path leads to, `n`. It loads exactly a closed ramfs node that is no
      directory, with all its bytes, and closes it again; nothing is changed by a path that leads nowhere,
      a directory or a file that is open, and a node of another filesystem stays open. */
  method LoadObject(vfs: Vfs, mem: Tar.Memory, path: string) returns (r: Option<string>, ghost n: Option<TreeNode>)
    requires vfs.Valid() && path != [] && path[0] == '/' && path != "/" && FitsBuffer(path) && vfs.HasBlocks()
    modifies vfs`nodes, vfs`where, vfs.nodes, vfs.Data()
    ensures vfs.Valid() && vfs.HasBlocks() && vfs.nodes == old(vfs.nodes) && vfs.Now() == old(vfs.Now())
    ensures n == old(vfs.At(Components(path)))
    ensures r.Some? <==>
            n.Some? && var d := n.value.data; !old(d.ref) && d.kind != FsDirectory && d.ops == Ramfs
    ensures r.Some? ==>
              var d := n.value.data; d.device != null && r.value == Tar.Chars(mem, d.device.data, d.device.size)
    ensures forall d :: d in vfs.Data() ==> d.ops == old(d.ops) && d.kind == old(d.kind) && d.device == old(d.device)
    ensures forall d :: d in vfs.Data() ==>
              (d.ref <==> old(d.ref) || (n.Some? && d == n.value.data && d.kind != FsDirectory && d.ops != Ramfs))
    ensures r == old(Object(vfs, mem, path))
    ensures r.Some? ==> forall p :: p != [] ==> Object(vfs, mem, p) == old(Object(vfs, mem, p))
  {
    hide Closed, Located, Resolve, FitsBuffer, Components, Tar.Chars;
    r, n := Load(vfs, mem, path);
  }

  method Load(vfs: Vfs, mem: Tar.Memory, path: string) returns (r: Option<string>, ghost n: Option<TreeNode>)
    requires vfs.Valid() && path != [] && path[0] == '/' && path != "/" && FitsBuffer(path) && vfs.HasBlocks()
    modifies vfs`nodes, vfs`where, vfs.nodes, vfs.Data()
    ensures vfs.Valid() && vfs.HasBlocks() && vfs.nodes == old(vfs.nodes) && vfs.Now() == old(vfs.Now())
    ensures n == old(vfs.At(Components(path))) && (n.Some? ==> n.value in vfs.nodes)
    ensures r.Some? <==>
            n.Some? && var d := n.value.data; !old(d.ref) && d.kind != FsDirectory && d.ops == Ramfs
    ensures r.Some? ==>
              var d := n.value.data; d.device != null && r.value == Tar.Chars(mem, d.device.data, d.device.size)
    ensures forall d :: d in vfs.Data() ==> d.ops == old(d.ops) && d.kind == old(d.kind) && d.device == old(d.device)
    ensures forall d :: d in vfs.Data() ==>
              (d.ref <==> old(d.ref) || (n.Some? && d == n.value.data && d.kind != FsDirectory && d.ops != Ramfs))
  {
    hide Closed, Located, Resolve, FitsBuffer, Components, Tar.Chars;
    n := vfs.At(Components(path));
    var f := vfs.KOpen(path);
    if f == null {
      return None, n;
    }
    r := LoadOpened(vfs, mem, f);
  }

  // ----- end to end -----

  /** A file whose name has a slash behind its first character is looked up under that name with
      slashes around it: the lookup finds its own node exactly when its place was free. */
  lemma MemberIsFound(vfs: Vfs, mem: Tar.Memory, t: Snap<TreeNode>, members: seq<Tar.Member>,
                      trees: map<nat, TreeNode>, tar: nat, j: nat)
    requires Loaded(vfs, t, members, |members|, trees, tar) && Tar.IsArchive(mem, tar, members)
    requires j < |members| && Place(members[j]).Some? && LastSlash(members[j].name, |members[j].name|).Some?
    ensures j in trees
    ensures vfs.At(Components(Canonical(members[j].name))) == Some(trees[j]) <==> Free(t, vfs.root, Places(members), j)
    ensures Free(t, vfs.root, Places(members), j) ==>
              Object(vfs, mem, Canonical(members[j].name)) == Some(members[j].content)
  {
    hide Vfs.Now, Closed, Located, Resolve, Grown, Free, Components, Tar.IsArchive, Tar.Chars, Canonical, Place,
          LastSlash;
    LookupIsPlace(members[j]);
    MemberBytes(mem, tar, members, j);
  }

  lemma LookupIsPlace(m: Tar.Member)
    requires Place(m).Some? && LastSlash(m.name, |m.name|).Some?
    ensures Place(m) == Some(Components(Canonical(m.name)))
  {
    CanonicalSplits(m.name);
    MountPathIsSegments(m.name);
  }

  /** The block tar_read reports holds the member's bytes. */
  lemma MemberBytes(mem: Tar.Memory, tar: nat, members: seq<Tar.Member>, j: nat)
    requires Tar.IsArchive(mem, tar, members) && j < |members|
    ensures Tar.Chars(mem, Tar.Offset(members, tar, j) + Tar.BLOCK, |members[j].content|) == members[j].content
  {
    hide Tar.IsArchive, Tar.Read;
    Tar.ReadInvertsArchive(mem, tar, members, j);
  }

  /** A file that comes after one stored below it never gets its place: the directory made for
      the other file already has it. */
  lemma DirectoryHidesFile<N>(t: Snap<N>, root: N, members: seq<Tar.Member>, j: nat, k: nat, base: string)
    requires Closed(t) && root in t && k < j < |members| && Place(members[j]).Some?
    requires LastSlash(members[j].name, |members[j].name|).Some?
    requires base != [] && '/' !in base && members[k].name == members[j].name + "/" + base
    ensures !Free(t, root, Places(members), j)
  {
    hide Segments, Resolve;
    var name, long := members[j].name, members[k].name;
    assert long[|name|] == '/' && long[|name| + 1..] == base;
    LastSlashOfJoin(name, base);
    MountPathIsSegments(name);
    MountPathIsSegments(long);
    SegmentsOfJoin(name, base);
    assert Places(members)[k].Some? && MountPath(name) <= Places(members)[k].value;
  }

  lemma {:induction false} LastSlashOfJoin(dir: string, base: string)
    requires dir != [] && '/' !in base
    ensures var name := dir + "/" + base; LastSlash(name, |name|) == Some(|dir|)
  {
    var name := dir + "/" + base;
    forall k | |dir| < k < |name|
      ensures name[k] != '/'
    {
      assert name[k] == base[k - |dir| - 1];
    }
    assert name[|dir|] == '/';
  }

  /** No earlier file has a later one's name, or uses it as a directory. */
  ghost predicate Compatible(members: seq<Tar.Member>) {
    forall j, k :: 0 <= k < j < |members| && Place(members[k]).Some? && Place(members[j]).Some? ==>
      !(Segments(members[j].name) <= Segments(members[k].name))
  }

  lemma CompatibleIsFree<N>(t: Snap<N>, root: N, members: seq<Tar.Member>, j: nat)
    requires Closed(t) && root in t && t[root].children == [] && Compatible(members)
    requires forall m :: m in members && Place(m).Some? ==> LastSlash(m.name, |m.name|).Some?
    requires j < |members| && Place(members[j]).Some?
    ensures Free(t, root, Places(members), j)
  {
    assert Find(t, t[root].children, MountPath(members[j].name)[0]).None?;
    hide Segments, Find;
    assert members[j] in members;
    MountPathIsSegments(members[j].name);
    forall k: nat | k < j && Place(members[k]).Some?
      ensures !(MountPath(members[j].name) <= MountPath(members[k].name))
    {
      assert members[k] in members;
      MountPathIsSegments(members[k].name);
    }
  }

  /** Loaded into a bare tree, every file of a compatible archive is there with all its bytes. */
  lemma EveryMemberIsFound(vfs: Vfs, mem: Tar.Memory, t: Snap<TreeNode>, members: seq<Tar.Member>,
                           trees: map<nat, TreeNode>, tar: nat)
    requires Loaded(vfs, t, members, |members|, trees, tar) && Tar.IsArchive(mem, tar, members)
    requires t[vfs.root].children == [] && Compatible(members)
    requires forall m :: m in members && Place(m).Some? ==> LastSlash(m.name, |m.name|).Some?
    ensures forall j :: 0 <= j < |members| && Place(members[j]).Some? ==>
              Object(vfs, mem, Canonical(members[j].name)) == Some(members[j].content)
  {
    forall j: nat | j < |members| && Place(members[j]).Some?
      ensures Object(vfs, mem, Canonical(members[j].name)) == Some(members[j].content)
    {
      hide *;
      assert members[j] in members;
      CompatibleIsFree(t, vfs.root, members, j);
      MemberIsFound(vfs, mem, t, members, trees, tar, j);
    }
  }

  lemma PathFits(m: Tar.Member)
    requires m.Ok()
    ensures var path := Canonical(m.name);
            path != [] && path[0] == '/' && path != "/" && FitsBuffer(path)
  {
    var path := Canonical(m.name);
    assert path == "/" + m.name + "/";
    forall k | 0 <= k < |path|
      ensures |Scan(path[1..][..k]).1| < NAME_MAX
    {
      SegmentsAreShort(path[1..][..k]);
    }
  }

  /** The kernel's start: vfs_init, ramdisk_init, and then an object is loaded. It has exactly the
      member's bytes, and afterwards so has every file of the archive. */
  method InitAndLoad(mem: Tar.Memory, tar: nat, key: nat, text: nat -> string, ghost members: seq<Tar.Member>,
                     path: string, ghost j: nat)
    returns (vfs: Vfs, r: Option<string>)
    requires Tar.IsArchive(mem, tar, members) && (forall m :: m in members ==> m.Ok()) && Compatible(members)
    requires forall m :: m in members && Place(m).Some? ==> LastSlash(m.name, |m.name|).Some?
    requires j < |members| && Place(members[j]).Some? && path == Canonical(members[j].name)
    ensures vfs.Valid() && r == Some(members[j].content)
    ensures forall k :: 0 <= k < |members| && Place(members[k]).Some? ==>
              Object(vfs, mem, Canonical(members[k].name)) == Some(members[k].content)
  {
    hide *;
    vfs := new Vfs(text);
    ghost var t := vfs.Now();
    BareTree(vfs);
    ghost var trees := RamdiskInit(vfs, mem, tar, key, members);
    EveryMemberIsFound(vfs, mem, t, members, trees, tar);
    forall k | 0 <= k < |members|
      ensures Canonical(members[k].name) != []
    {
      PathFits(members[k]);
    }
    PathFits(members[j]);
    LoadedParts(vfs, t, members, |members|, trees, tar);
    RecordsAreOfNodes(vfs);
    ghost var n;
    r, n := LoadObject(vfs, mem, path);
  }

  lemma RecordsAreOfNodes(vfs: Vfs)
    ensures forall d :: d in vfs.Data() ==> exists n :: n in vfs.nodes && n.data == d
  {
  }

  lemma BareTree(vfs: Vfs)
    requires vfs.Valid() && vfs.root.children == []
    ensures Closed(vfs.Now()) && vfs.root in vfs.Now() && vfs.Now()[vfs.root].children == []
  {
  }
}
