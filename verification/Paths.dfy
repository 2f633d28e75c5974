/** C strings as sequences without their terminator, and the path handling of the VFS. */
module Paths {
  import opened Arith

  const NAME_MAX: nat := 256  // VFS_MAX_FILE_NAME

  /** strncmp: the sign of the first difference within `n` characters, the end counting as 0. */
  function StrNCmp(a: string, b: string, n: nat): int {
    if n == 0 || (a == [] && b == []) then 0
    else if a == [] then -1
    else if b == [] then 1
    else if a[0] != b[0] then (if a[0] < b[0] then -1 else 1)
    else StrNCmp(a[1..], b[1..], n - 1)
  }

  /** A name matches a component shorter than the limit exactly when they are equal. */
  lemma {:induction false} MatchIsEquality(a: string, b: string, n: nat)
    requires |b| < n
    ensures StrNCmp(a, b, n) == 0 <==> a == b
  {
    if a != [] && b != [] && a[0] == b[0] {
      MatchIsEquality(a[1..], b[1..], n - 1);
      assert a == [a[0]] + a[1..] && b == [b[0]] + b[1..];
    }
  }

  // ----- splitting -----

  /** The components a scan of `s` has closed with a '/', and the text since the last one. */
  function Scan(s: string): (seq<string>, string) {
    if s == [] then ([], [])
    else
      var last := |s| - 1;
      var (closed, open) := Scan(s[..last]);
      if s[last] == '/' then (closed + [open], []) else (closed, open + [s[last]])
  }

  /** The components of an absolute path: what ends in a '/' behind the leading one. */
  function Components(path: string): seq<string>
    requires path != []
  {
    Scan(path[1..]).0
  }

  /** All segments of a name, the last one included. */
  function Segments(name: string): seq<string> {
    var (closed, open) := Scan(name);
    closed + [open]
  }

  /** vfs_canonicalise: a leading and a trailing slash. */
  function Canonical(path: string): string {
    "/" + path + "/"
  }

  lemma CanonicalSplits(name: string)
    ensures Components(Canonical(name)) == Segments(name)
  {
    var s := name + "/";
    assert Canonical(name)[1..] == s;
    assert s[..|s| - 1] == name && s[|s| - 1] == '/';
  }

  lemma {:induction false} ScanAppends(s: string, t: string)
    requires '/' !in t
    ensures Scan(s + t) == (Scan(s).0, Scan(s).1 + t)
  {
    if t == [] {
      assert s + t == s && Scan(s).1 + t == Scan(s).1;
    } else {
      var u, x := t[..|t| - 1], t[|t| - 1];
      assert x in t && forall c :: c in u ==> c in t;
      ScanAppends(s, u);
      assert (s + t)[..|s + t| - 1] == s + u && (s + t)[|s + t| - 1] == x;
      assert (Scan(s).1 + u) + [x] == Scan(s).1 + t;
    }
  }

  lemma {:induction false} ScanGrows(s: string, k: nat)
    requires k <= |s|
    ensures Scan(s[..k]).0 <= Scan(s).0
  {
    if k < |s| {
      var up := s[..|s| - 1];
      ScanGrows(up, k);
      assert up[..k] == s[..k];
    } else {
      assert s[..k] == s;
    }
  }

  lemma ScanStep(s: string, k: nat)
    requires k < |s|
    ensures var (closed, open) := Scan(s[..k]);
            Scan(s[..k + 1]) == if s[k] == '/' then (closed + [open], []) else (closed, open + [s[k]])
  {
    assert s[..k + 1][..k] == s[..k];
  }

  /** No run of characters between slashes reaches the size of vfs_mount's buffer. */
  ghost predicate FitsBuffer(path: string) {
    forall k :: 0 <= k < |path| ==> |Scan(path[1..][..k]).1| < NAME_MAX
  }

  /** After `i` characters of an absolute path: the components closed and the text collected. */
  ghost predicate Scanned(path: string, i: nat, closed: seq<string>, text: string) {
    i <= |path| && if i == 0 then closed == [] && text == [] else (closed, text) == Scan(path[1..][..i - 1])
  }

  lemma ScanCharacter(path: string, i: nat, closed: seq<string>, text: string)
    requires i < |path| && path[0] == '/' && FitsBuffer(path) && Scanned(path, i, closed, text)
    ensures |text| < NAME_MAX
    ensures i == 0 ==> Scanned(path, 1, [], [])
    ensures path[i] != '/' ==> Scanned(path, i + 1, closed, text + [path[i]]) && |text| + 1 < NAME_MAX
    ensures i > 0 && path[i] == '/' ==> Scanned(path, i + 1, closed + [text], []) && closed + [text] <= Components(path)
  {
    if i > 0 {
      ScanStep(path[1..], i - 1);
      ScanGrows(path[1..], i);
    }
  }

  lemma StartScan(path: string)
    ensures Scanned(path, 0, [], [])
  {
  }

  lemma ScanEnds(path: string, closed: seq<string>, text: string)
    requires path != [] && Scanned(path, |path|, closed, text)
    ensures closed == Components(path)
  {
    assert path[1..][..|path| - 1] == path[1..];
  }

  /** Splitting at the last slash splits off the last segment. */
  lemma SegmentsOfJoin(dir: string, base: string)
    requires '/' !in base
    ensures Segments(dir + "/" + base) == Segments(dir) + [base]
  {
    var s := dir + "/";
    assert s[..|s| - 1] == dir;
    ScanAppends(s, base);
    assert Scan(s).1 + base == base;
  }

  /** A segment is no longer than its name. */
  lemma {:induction false} SegmentsAreShort(name: string)
    ensures |Scan(name).1| <= |name|
    ensures forall c :: c in Scan(name).0 ==> |c| <= |name|
  {
    if name != [] {
      SegmentsAreShort(name[..|name| - 1]);
    }
  }

  // ----- base and directory names -----

  /** The last slash behind the first character. */
  function LastSlash(path: string, n: nat): (r: Option<nat>)
    requires n <= |path|
    ensures r.Some? ==> 0 < r.value < n && path[r.value] == '/'
    ensures forall k :: (if r.Some? then r.value else 0) < k < n ==> path[k] != '/'
  {
    if n <= 1 then None
    else if path[n - 1] == '/' then Some(n - 1)
    else LastSlash(path, n - 1)
  }

  function BaseName(path: string): string {
    match LastSlash(path, |path|)
    case Some(k) => path[k + 1..]
    case None => path
  }

  function DirName(path: string): string {
    match LastSlash(path, |path|)
    case Some(k) => path[..k]
    case None => path
  }

  /** Where the ramdisk mounts a file: below its directory's components, under its base name. */
  function MountPath(name: string): seq<string> {
    Segments(DirName(name)) + [BaseName(name)]
  }

  /** A name with a slash behind its first character is mounted where it says; a name without one
      ends up one level too deep, below a directory of its own name. */
  lemma MountPathIsSegments(name: string)
    ensures LastSlash(name, |name|).Some? ==> MountPath(name) == Segments(name)
    ensures LastSlash(name, |name|).None? ==> MountPath(name) == Segments(name) + [name]
  {
    hide Segments;
    match LastSlash(name, |name|)
    case Some(k) =>
      var dir, base := name[..k], name[k + 1..];
      SplitAt(name, k);
      SegmentsOfJoin(dir, base);
    case None =>
  }

  lemma SplitAt(name: string, k: nat)
    requires LastSlash(name, |name|) == Some(k)
    ensures name == name[..k] + "/" + name[k + 1..] && '/' !in name[k + 1..]
  {
    var base := name[k + 1..];
    forall j | 0 <= j < |base|
      ensures base[j] != '/'
    {
      assert base[j] == name[k + 1 + j];
    }
  }

  /** vfs_get_base_name. */
  method GetBaseName(path: string) returns (r: string)
    requires path != []
    ensures r == BaseName(path)
  {
    var i := |path| - 1;
    while i > 0
      invariant 0 <= i < |path| && LastSlash(path, |path|) == LastSlash(path, i + 1)
    {
      if path[i] == '/' {
        return path[i + 1..];
      }
      i := i - 1;
    }
    return path;
  }

  /** vfs_get_dir_name: cuts a copy of the path at its last slash. */
  method GetDirName(path: string) returns (r: string)
    requires path != []
    ensures r == DirName(path)
  {
    var i := |path| - 1;
    while i > 0
      invariant 0 <= i < |path| && LastSlash(path, |path|) == LastSlash(path, i + 1)
    {
      if path[i] == '/' {
        return path[..i];
      }
      i := i - 1;
    }
    return path;
  }
}
