/**
 * The served directory tree as a map from cleaned paths to nodes, and the
 * operating-system calls the server makes on it: opening a path, the
 * component probe of mapDirOpenError (trans.go:59-78), Dir.Open
 * (trans.go:81-95), check_is_dir (trans.go:281-292) and the upload write
 * (trans.go:774-782).
 */
module FileSystem {
  import opened Wrappers
  import opened Segments
  import opened Paths
  import opened Streams

  datatype Node = File(data: seq<byte>, modTime: int, seekable: bool) | Dir(modTime: int)

  /** Every node under its cleaned path. */
  type FS = map<string, Node>

  datatype OsError = NotExist | Permission | NotDirectory | IsDirectory | InvalidPath

  /** One entry of a directory listing, as Readdir reports it. */
  datatype Entry = Entry(name: string, isDir: bool, size: int, modTime: int)

  /** check_is_dir: Stat succeeds and reports a directory. */
  predicate IsDir(fs: FS, p: string)
  {
    p in fs && fs[p].Dir?
  }

  /** The path formed by the first i + 1 pieces, joined with the separator. */
  function PrefixPath(parts: seq<string>, i: nat): string
    requires i < |parts|
  {
    Join(parts[..i + 1], '/')
  }

  /** Every non-empty piece in [lo, hi) names an existing directory. */
  predicate ClearBetween(fs: FS, parts: seq<string>, lo: nat, hi: nat)
  {
    forall j :: lo <= j < hi && j < |parts| && parts[j] != "" ==>
      PrefixPath(parts, j) in fs && fs[PrefixPath(parts, j)].Dir?
  }

  /** The probe first meets an existing non-directory at piece k. */
  predicate BlockedAt(fs: FS, parts: seq<string>, k: int)
  {
    && 0 <= k < |parts| && parts[k] != ""
    && PrefixPath(parts, k) in fs && !fs[PrefixPath(parts, k)].Dir?
    && ClearBetween(fs, parts, 0, k)
  }

  datatype Obstacle = Clear | Missing(at: nat) | NotDir(at: nat)

  /**
   * The loop of mapDirOpenError from piece i on: empty pieces are skipped,
   * a prefix that cannot be statted stops it, and so does a prefix that is
   * not a directory.
   */
  function FirstObstacle(fs: FS, parts: seq<string>, i: nat): (r: Obstacle)
    ensures r.Clear? ==> ClearBetween(fs, parts, i, |parts|)
    ensures r.Missing? ==>
      && i <= r.at < |parts| && parts[r.at] != ""
      && PrefixPath(parts, r.at) !in fs && ClearBetween(fs, parts, i, r.at)
    ensures r.NotDir? ==>
      && i <= r.at < |parts| && parts[r.at] != ""
      && PrefixPath(parts, r.at) in fs && !fs[PrefixPath(parts, r.at)].Dir?
      && ClearBetween(fs, parts, i, r.at)
    decreases |parts| - i
  {
    if i >= |parts| then Clear
    else if parts[i] == "" then FirstObstacle(fs, parts, i + 1)
    else
      var p := PrefixPath(parts, i);
      if p !in fs then Missing(i)
      else if !fs[p].Dir? then NotDir(i)
      else FirstObstacle(fs, parts, i + 1)
  }

  /** The probe stops at a non-directory exactly when some piece is blocked. */
  lemma FirstObstacleNotDir(fs: FS, parts: seq<string>)
    ensures FirstObstacle(fs, parts, 0).NotDir? <==> exists k :: BlockedAt(fs, parts, k)
  {
    var r := FirstObstacle(fs, parts, 0);
    if r.NotDir? {
      assert BlockedAt(fs, parts, r.at);
    }
    forall k | BlockedAt(fs, parts, k)
      ensures r.NotDir?
    {
    }
  }

  /** os.Open on the tree; a missing path reports ENOTDIR when a prefix is a file. */
  function OsOpen(fs: FS, p: string): (r: Result<Node, OsError>)
    ensures r.Ok? <==> p in fs
    ensures r.Ok? ==> r.value == fs[p]
    ensures r.Err? ==> (r.error == NotDirectory <==> exists k :: BlockedAt(fs, Split(p, Slashes), k))
    ensures r.Err? ==> r.error == NotDirectory || r.error == NotExist
  {
    if p in fs then Ok(fs[p])
    else
      FirstObstacleNotDir(fs, Split(p, Slashes));
      if FirstObstacle(fs, Split(p, Slashes), 0).NotDir? then
        assert exists k :: BlockedAt(fs, Split(p, Slashes), k);
        Err(NotDirectory)
      else Err(NotExist)
  }

  /**
   * mapDirOpenError: not-exist and permission errors pass through; any other
   * error becomes not-exist when a component of the path turns out to be a
   * regular file, and passes through otherwise.
   */
  function MapDirOpenError(orig: OsError, name: string, fs: FS): (r: OsError)
    ensures r == orig || r == NotExist
    ensures orig == NotExist || orig == Permission ==> r == orig
    ensures orig != NotExist && orig != Permission ==>
      (r == NotExist <==> exists k :: BlockedAt(fs, Split(name, Slashes), k))
  {
    if orig == NotExist || orig == Permission then orig
    else
      FirstObstacleNotDir(fs, Split(name, Slashes));
      if FirstObstacle(fs, Split(name, Slashes), 0).NotDir? then
        assert exists k :: BlockedAt(fs, Split(name, Slashes), k);
        NotExist
      else orig
  }

  /** An opened file or directory and the path it was opened under. */
  datatype Handle = Handle(path: string, node: Node)

  /** The path Dir.Open hands to os.Open for `name` under `root`. */
  function OpenedPath(root: string, name: string): string
  {
    var dir := if root == "" then "." else root;
    JoinPath(dir, Clean("/" + name))
  }

  /** Dir.Open (trans.go:81-95) on a host whose separator is `hostSep`. */
  function DirOpen(root: string, name: string, fs: FS, hostSep: char): (r: Result<Handle, OsError>)
    ensures hostSep != '/' && hostSep in name ==> r == Err(InvalidPath)
    ensures !(hostSep != '/' && hostSep in name) ==> (r.Ok? <==> OpenedPath(root, name) in fs)
    ensures r.Ok? ==> r.value.path == OpenedPath(root, name) && r.value.node == fs[r.value.path]
    ensures r.Err? ==> r.error == InvalidPath || r.error == NotExist
  {
    if hostSep != '/' && hostSep in name then Err(InvalidPath)
    else
      var full := OpenedPath(root, name);
      match OsOpen(fs, full)
      case Ok(node) => Ok(Handle(full, node))
      case Err(e) => Err(MapDirOpenError(e, full, fs))
  }

  /**
   * Whatever `name` holds, the path Dir.Open opens is the root's own cleaned
   * elements followed by names only; under an absolute root it is the
   * cleaned root or lies beneath it.
   */
  lemma DirOpenConfined(root: string, name: string)
    ensures var dir := if root == "" then "." else root;
      exists t: seq<string> ::
        && (forall i :: 0 <= i < |t| ==> IsName(t[i]))
        && OpenedPath(root, name) == Render(IsRooted(dir), CleanStack(dir) + t)
    ensures IsRooted(root) ==> Within(OpenedPath(root, name), Clean(root))
  {
    var dir := if root == "" then "." else root;
    JoinedStaysWithin(dir, name);
    if IsRooted(root) {
      JoinedWithinRoot(root, name);
    }
  }

  /** The parent directory a new file is created in. */
  function ParentOf(p: string): string
  {
    Clean(p + "/..")
  }

  /**
   * Writing `data` at the start of an existing file without truncating it:
   * the bytes past the end of `data` keep their old values.
   */
  function Overlay(prior: seq<byte>, data: seq<byte>): (r: seq<byte>)
    ensures |r| == Max(|prior|, |data|)
    ensures r[..|data|] == data
    ensures forall i :: |data| <= i < |prior| ==> r[i] == prior[i]
  {
    if |data| >= |prior| then data else data + prior[|data|..]
  }

  /**
   * os.OpenFile(p, O_WRONLY|O_CREATE, 0666) followed by one write of `data`
   * at offset 0 (trans.go:774-782): a directory cannot be opened for
   * writing, a file is only created inside an existing directory, and an
   * existing file is overwritten in place without being truncated. Opening
   * an existing file and copying no bytes into it changes nothing, its
   * modification time included.
   */
  function WriteInPlace(fs: FS, p: string, data: seq<byte>, now: int): (r: Result<FS, OsError>)
    ensures IsDir(fs, p) ==> r == Err(IsDirectory)
    ensures r.Ok? <==> !IsDir(fs, p) && (p in fs || IsDir(fs, ParentOf(p)))
    ensures r.Ok? ==> r.value.Keys == fs.Keys + {p}
    ensures r.Ok? ==> forall q :: q in fs && q != p ==> r.value[q] == fs[q]
    ensures r.Ok? ==> r.value[p].File? && r.value[p].modTime == if p in fs && data == [] then fs[p].modTime else now
    ensures r.Ok? ==> r.value[p].data == if p in fs then Overlay(fs[p].data, data) else data
    ensures p in fs && !IsDir(fs, p) && data == [] ==> r == Ok(fs)
  {
    if IsDir(fs, p) then Err(IsDirectory)
    else if p in fs then
      if |data| == 0 then Ok(fs)
      else Ok(fs[p := File(Overlay(fs[p].data, data), now, fs[p].seekable)])
    else if IsDir(fs, ParentOf(p)) then
      Ok(fs[p := File(data, now, true)])
    else Err(NotExist)
  }

  /**
   * A shorter upload over an existing longer file leaves the old tail in
   * place: the stored file is not the uploaded bytes.
   */
  lemma InPlaceWriteKeepsStaleTail()
    ensures var fs := map["/up/a.txt" := File([1, 2, 3], 0, true), "/up" := Dir(0)];
      WriteInPlace(fs, "/up/a.txt", [9], 1).Ok?
      && WriteInPlace(fs, "/up/a.txt", [9], 1).value["/up/a.txt"].data == [9, 2, 3]
  {
    var fs := map["/up/a.txt" := File([1, 2, 3], 0, true), "/up" := Dir(0)];
    assert IsDir(fs, "/up");
    assert Overlay([1, 2, 3], [9]) == [9] + [2, 3];
  }

  /**
   * The write with O_TRUNC added: the stored file holds exactly the uploaded
   * bytes, whatever was there before.
   */
  function WriteTruncating(fs: FS, p: string, data: seq<byte>, now: int): (r: Result<FS, OsError>)
    ensures IsDir(fs, p) ==> r == Err(IsDirectory)
    ensures r.Ok? <==> !IsDir(fs, p) && (p in fs || IsDir(fs, ParentOf(p)))
    ensures r.Ok? ==> r.value.Keys == fs.Keys + {p}
    ensures r.Ok? ==> forall q :: q in fs && q != p ==> r.value[q] == fs[q]
    ensures r.Ok? ==> r.value[p] == File(data, now, if p in fs then fs[p].seekable else true)
  {
    if IsDir(fs, p) then Err(IsDirectory)
    else if p in fs then Ok(fs[p := File(data, now, fs[p].seekable)])
    else if IsDir(fs, ParentOf(p)) then Ok(fs[p := File(data, now, true)])
    else Err(NotExist)
  }

  /** With truncation a write followed by a read gives back exactly what was written. */
  lemma TruncatingWriteStoresUpload(fs: FS, p: string, data: seq<byte>, now: int)
    requires WriteTruncating(fs, p, data, now).Ok?
    ensures OsOpen(WriteTruncating(fs, p, data, now).value, p) == Ok(File(data, now, if p in fs then fs[p].seekable else true))
  {
  }
}
