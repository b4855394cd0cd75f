/**
 * The upload endpoints: check_dir_handler (trans.go:661-678), which tells
 * the page whether a target directory is acceptable, and upload
 * (trans.go:682-797), which stores the files of a multipart form in that
 * directory under the shared root.
 */
module Upload {
  import opened Wrappers
  import opened Segments
  import opened Paths
  import opened DotDot
  import opened Streams
  import opened FileSystem
  import opened Http
  import opened Platform

  /** One file of the multipart form: its name, and its bytes or None when opening it fails. */
  datatype Part = Part(filename: string, content: Option<seq<byte>>)

  /** What the connection allows on the rejection path of upload. */
  datatype Transport = Transport(formParses: bool, hijackable: bool)

  /**
   * How upload ends: a response, a hijacked connection answered with a raw
   * "500 Internal Server Error" status line and closed, or a connection
   * dropped because the handler panicked on a missing multipart form.
   */
  datatype Reply = Replied(resp: Response) | Hijacked | Dropped

  /** The directory a request's `a` parameter names under the shared root. */
  function UploadDir(dst: string, c: string): string
  {
    JoinPath(dst, c)
  }

  /** The directory test shared by check_dir_handler and upload. */
  predicate Acceptable(dst: string, c: string, fs: FS)
  {
    !ContainsDotDot(c) && IsDir(fs, UploadDir(dst, c))
  }

  /**
   * check_dir_handler: an empty 200 when `a` names an existing directory
   * without a `..` element, otherwise an empty 403.
   */
  function CheckDirHandler(r: Request, dst: string, fs: FS): (resp: Response)
    ensures resp.status == 200 <==> Acceptable(dst, QueryGet(r, "a"), fs)
    ensures resp.status != 200 ==> resp.status == 403 && HeaderGet(resp.header, "Content-Length") == "0"
    ensures resp.body == Text("")
  {
    var c := QueryGet(r, "a");
    if ContainsDotDot(c) then FastResp(map[], 403)
    else if !IsDir(fs, UploadDir(dst, c)) then FastResp(map[], 403)
    else Response(200, map[], Text(""))
  }

  /** strings.ReplaceAll(s, "-", "") */
  function RemoveHyphens(s: string): (r: string)
    ensures forall i :: 0 <= i < |r| ==> r[i] != '-'
    ensures forall c :: c != '-' ==> (c in r <==> c in s)
    ensures (forall i :: 0 <= i < |s| ==> s[i] != '-') ==> r == s
  {
    if |s| == 0 then ""
    else if s[0] == '-' then RemoveHyphens(s[1..])
    else [s[0]] + RemoveHyphens(s[1..])
  }

  /** Exactly the hyphens go: the result is shorter by their number. */
  lemma {:induction false} RemoveHyphensCount(s: string)
    ensures |RemoveHyphens(s)| + multiset(s)['-'] == |s|
    decreases |s|
  {
    if |s| > 0 {
      assert s == [s[0]] + s[1..];
      RemoveHyphensCount(s[1..]);
    }
  }

  /** Removing hyphens works piece by piece, so the other characters keep their order. */
  lemma {:induction false} RemoveHyphensAppend(a: string, b: string)
    ensures RemoveHyphens(a + b) == RemoveHyphens(a) + RemoveHyphens(b)
    decreases |a|
  {
    if |a| > 0 {
      assert (a + b)[0] == a[0];
      assert (a + b)[1..] == a[1..] + b;
      RemoveHyphensAppend(a[1..], b);
    } else {
      assert a + b == b;
    }
  }

  /** On one character: a hyphen goes, anything else stays. */
  lemma RemoveHyphensOne(c: char)
    ensures RemoveHyphens([c]) == if c == '-' then "" else [c]
  {
    assert [c][1..] == "";
  }

  /** The hyphen at `k`, the first in `s`, is dropped and the text before it kept. */
  lemma RemoveHyphensSkip(s: string, k: nat)
    requires k < |s| && s[k] == '-'
    requires forall i :: 0 <= i < k ==> s[i] != '-'
    ensures RemoveHyphens(s) == s[..k] + RemoveHyphens(s[k + 1..])
  {
    var a := s[..k];
    var rest := s[k + 1..];
    assert RemoveHyphens(a) == a by {
      assert forall i :: 0 <= i < |a| ==> a[i] == s[i];
    }
    assert RemoveHyphens([s[k]] + rest) == RemoveHyphens(rest) by {
      var t := [s[k]] + rest;
      assert t[0] == '-' && t[1..] == rest;
    }
    assert RemoveHyphens(s) == RemoveHyphens(a) + RemoveHyphens([s[k]] + rest) by {
      assert s == a + ([s[k]] + rest);
      RemoveHyphensAppend(a, [s[k]] + rest);
    }
  }

  predicate IsHex(c: char)
  {
    '0' <= c <= '9' || 'a' <= c <= 'f'
  }

  /**
   * The text of uuid.New().String(): 36 characters, hyphens at 8, 13, 18
   * and 23, lower-case hexadecimal digits everywhere else.
   */
  predicate IsUuidText(u: string)
  {
    && |u| == 36
    && u[8] == '-' && u[13] == '-' && u[18] == '-' && u[23] == '-'
    && forall i :: 0 <= i < 36 && i != 8 && i != 13 && i != 18 && i != 23 ==> IsHex(u[i])
  }

  /** A suffix is empty, or a dot followed by at least one character that is neither a dot nor a slash. */
  predicate GoodSuffix(suffix: string)
  {
    suffix == "" || (|suffix| >= 2 && suffix[0] == '.' && forall i :: 1 <= i < |suffix| ==> suffix[i] != '.' && suffix[i] != '/')
  }

  /** The suffix inserted into stored names: a dot and the hyphen-free UUID when `b` is "1". */
  function UploadSuffix(flag: string, uuid: string): (r: string)
    ensures flag != "1" <==> r == ""
    ensures r != "" ==> r[0] == '.' && r[1..] == RemoveHyphens(uuid)
  {
    if flag == "1" then "." + RemoveHyphens(uuid) else ""
  }

  /**
   * With `b` set the suffix is a dot and the UUID's 32 hexadecimal digits,
   * in order.
   */
  lemma UuidSuffix(u: string)
    requires IsUuidText(u)
    ensures UploadSuffix("1", u) == "." + u[..8] + u[9..13] + u[14..18] + u[19..23] + u[24..]
    ensures |UploadSuffix("1", u)| == 33
    ensures forall i :: 1 <= i < 33 ==> IsHex(UploadSuffix("1", u)[i])
    ensures GoodSuffix(UploadSuffix("1", u))
  {
    UuidDigits(u);
    var r := UploadSuffix("1", u);
    assert r == "." + (u[..8] + (u[9..13] + (u[14..18] + (u[19..23] + u[24..]))));
    forall i | 1 <= i < 33
      ensures IsHex(r[i])
    {
      var j := if i < 9 then i - 1 else if i < 13 then i else if i < 17 then i + 1 else if i < 21 then i + 2 else i + 3;
      assert r[i] == u[j];
    }
  }

  /** The hyphens of a UUID's text sit between its five groups of digits. */
  lemma UuidDigits(u: string)
    requires IsUuidText(u)
    ensures RemoveHyphens(u) == u[..8] + (u[9..13] + (u[14..18] + (u[19..23] + u[24..])))
  {
    assert RemoveHyphens(u) == u[..8] + RemoveHyphens(u[9..]) by {
      assert u[0..] == u && u[0..8] == u[..8];
      SkipAt(u, 0, 8);
    }
    assert RemoveHyphens(u[9..]) == u[9..13] + RemoveHyphens(u[14..]) by {
      SkipAt(u, 9, 4);
    }
    assert RemoveHyphens(u[14..]) == u[14..18] + RemoveHyphens(u[19..]) by {
      SkipAt(u, 14, 4);
    }
    assert RemoveHyphens(u[19..]) == u[19..23] + RemoveHyphens(u[24..]) by {
      SkipAt(u, 19, 4);
    }
    assert RemoveHyphens(u[24..]) == u[24..] by {
      var t4 := u[24..];
      forall i | 0 <= i < |t4|
        ensures t4[i] != '-'
      {
        assert t4[i] == u[24 + i];
      }
    }
  }

  /** RemoveHyphensSkip on the suffix of `u` that starts at `a`. */
  lemma SkipAt(u: string, a: nat, k: nat)
    requires a + k < |u| && u[a + k] == '-'
    requires forall i :: a <= i < a + k ==> u[i] != '-'
    ensures RemoveHyphens(u[a..]) == u[a..a + k] + RemoveHyphens(u[a + k + 1..])
  {
    var t := u[a..];
    forall i | 0 <= i < k
      ensures t[i] != '-'
    {
      assert t[i] == u[a + i];
    }
    RemoveHyphensSkip(t, k);
    assert t[..k] == u[a..a + k];
    assert t[k + 1..] == u[a + k + 1..];
  }

  /** The name a file is stored under: the suffix goes between the name and its extension. */
  function StoredName(filename: string, suffix: string): string
  {
    var (stem, ext) := SplitFilename(filename);
    stem + suffix + ext
  }

  /** Without the `b` flag a file keeps its uploaded name. */
  lemma StoredNameWithoutSuffix(filename: string)
    ensures StoredName(filename, "") == filename
  {
    var (stem, ext) := SplitFilename(filename);
    assert stem + "" == stem;
  }

  /** The suffix never changes the extension of a name that has one. */
  lemma StoredNameKeepsExtension(filename: string, suffix: string)
    requires Ext(filename) != ""
    ensures Ext(StoredName(filename, suffix)) == Ext(filename)
  {
    var (stem, ext) := SplitFilename(filename);
    assert ext == Ext(filename);
    ExtOfDottedSuffix(stem + suffix, ext);
  }

  /** The path a part is written to. */
  function Target(p: Part, dir: string, suffix: string): string
  {
    JoinPath(dir, StoredName(p.filename, suffix))
  }

  predicate IsTarget(parts: seq<Part>, dir: string, suffix: string, q: string)
  {
    exists i :: 0 <= i < |parts| && Target(parts[i], dir, suffix) == q
  }

  /**
   * `stored` begins with `data`, and is exactly `data` when the write
   * truncates.
   */
  predicate Carries(stored: seq<byte>, data: seq<byte>, truncate: bool)
  {
    && |data| <= |stored|
    && stored[..|data|] == data
    && (truncate ==> stored == data)
  }

  /**
   * os.OpenFile with O_CREATE succeeds at `p`: it is not a directory, and it
   * exists or its parent is a directory.
   */
  predicate Writable(fs: FS, p: string)
  {
    !IsDir(fs, p) && (p in fs || IsDir(fs, ParentOf(p)))
  }

  /** Every part can be opened and every target can be written. */
  predicate CanStoreAll(parts: seq<Part>, dir: string, suffix: string, fs: FS)
  {
    forall i :: 0 <= i < |parts| ==> parts[i].content.Some? && Writable(fs, Target(parts[i], dir, suffix))
  }

  /** The write of one part: in place as the source does it, or truncating. */
  function WritePart(fs: FS, p: string, data: seq<byte>, now: int, truncate: bool): (r: Result<FS, OsError>)
    ensures r.Ok? <==> Writable(fs, p)
    ensures r.Ok? ==> r.value.Keys == fs.Keys + {p}
    ensures r.Ok? ==> forall q :: q in fs && q != p ==> r.value[q] == fs[q]
    ensures r.Ok? ==> r.value[p].File?
    ensures r.Ok? ==> r.value[p].modTime == if !truncate && p in fs && data == [] then fs[p].modTime else now
    ensures r.Ok? && !truncate ==> r.value[p].data == if p in fs then Overlay(fs[p].data, data) else data
    ensures r.Ok? ==> Carries(r.value[p].data, data, truncate)
  {
    if truncate then WriteTruncating(fs, p, data, now) else WriteInPlace(fs, p, data, now)
  }

  /** The last part written to its target. */
  predicate LastFor(parts: seq<Part>, dir: string, suffix: string, i: int)
    requires 0 <= i < |parts|
  {
    forall j :: i < j < |parts| ==> Target(parts[j], dir, suffix) != Target(parts[i], dir, suffix)
  }

  /** Every part was opened and its target is now a regular file. */
  predicate StoredAll(parts: seq<Part>, dir: string, suffix: string, fs: FS)
  {
    forall i :: 0 <= i < |parts| ==>
      && parts[i].content.Some?
      && Target(parts[i], dir, suffix) in fs
      && fs[Target(parts[i], dir, suffix)].File?
  }

  /** Each target holds exactly the bytes of the last part written to it. */
  predicate HoldsLastUpload(parts: seq<Part>, dir: string, suffix: string, fs: FS)
  {
    forall i :: 0 <= i < |parts| && LastFor(parts, dir, suffix, i) ==>
      && parts[i].content.Some?
      && Target(parts[i], dir, suffix) in fs
      && fs[Target(parts[i], dir, suffix)].File?
      && fs[Target(parts[i], dir, suffix)].data == parts[i].content.value
  }

  /**
   * Each target begins with the bytes of the last part written to it, and
   * holds exactly them when writes truncate.
   */
  predicate CarriesLastUpload(parts: seq<Part>, dir: string, suffix: string, fs: FS, truncate: bool)
  {
    forall i :: 0 <= i < |parts| && LastFor(parts, dir, suffix, i) ==>
      && parts[i].content.Some?
      && Target(parts[i], dir, suffix) in fs
      && fs[Target(parts[i], dir, suffix)].File?
      && Carries(fs[Target(parts[i], dir, suffix)].data, parts[i].content.value, truncate)
  }

  /** Only the targets of the parts differ between `fs` and `fs2`. */
  predicate OnlyTargetsChanged(parts: seq<Part>, dir: string, suffix: string, fs: FS, fs2: FS)
  {
    forall q :: q in fs2 && (q !in fs || fs2[q] != fs[q]) ==> IsTarget(parts, dir, suffix, q)
  }

  /**
   * The loop over the form's files: each is opened and written to its
   * target; the first failure answers 500 "eror" and stops, leaving the
   * files written before it in place.
   */
  function StoreParts(parts: seq<Part>, dir: string, suffix: string, fs: FS, now: int,
                      truncate: bool): (out: (Reply, FS))
    ensures out.0 == Replied(Response(200, map[], Text("")))
         || out.0 == Replied(Error(map[], "eror", 500))
    ensures forall q :: q in fs && !IsTarget(parts, dir, suffix, q) ==> q in out.1 && out.1[q] == fs[q]
    ensures forall q :: q in out.1 ==> q in fs || IsTarget(parts, dir, suffix, q)
    ensures out.0.resp.status == 200 ==>
      forall i :: 0 <= i < |parts| ==>
        && parts[i].content.Some?
        && Target(parts[i], dir, suffix) in out.1
        && out.1[Target(parts[i], dir, suffix)].File?
    ensures out.0.resp.status == 200 ==>
      forall i :: 0 <= i < |parts| && LastFor(parts, dir, suffix, i) ==>
        Carries(out.1[Target(parts[i], dir, suffix)].data, parts[i].content.value, truncate)
    ensures forall q :: IsDir(fs, q) ==> q in out.1 && out.1[q] == fs[q]
    ensures out.0.resp.status == 200 <==> CanStoreAll(parts, dir, suffix, fs)
    decreases |parts|
  {
    if |parts| == 0 then (Replied(Response(200, map[], Text(""))), fs)
    else
      var p := parts[0];
      match p.content
      case None => (Replied(Error(map[], "eror", 500)), fs)
      case Some(data) =>
        var target := Target(p, dir, suffix);
        match WritePart(fs, target, data, now, truncate)
        case Err(_) => (Replied(Error(map[], "eror", 500)), fs)
        case Ok(fs1) =>
          var out := StoreParts(parts[1..], dir, suffix, fs1, now, truncate);
          StorePartsStep(parts, dir, suffix, fs, fs1, now, truncate, out);
          WriteKeepsWritable(fs, target, data, now, truncate, fs1);
          CanStoreStep(parts, dir, suffix, fs, fs1);
          out
  }

  /** Moves the facts about the rest of the parts back to the whole form. */
  lemma StorePartsStep(parts: seq<Part>, dir: string, suffix: string, fs: FS, fs1: FS,
                       now: int, truncate: bool, out: (Reply, FS))
    requires |parts| > 0 && parts[0].content.Some?
    requires WritePart(fs, Target(parts[0], dir, suffix), parts[0].content.value, now, truncate) == Ok(fs1)
    requires forall q :: q in fs1 && !IsTarget(parts[1..], dir, suffix, q) ==> q in out.1 && out.1[q] == fs1[q]
    requires forall q :: q in out.1 ==> q in fs1 || IsTarget(parts[1..], dir, suffix, q)
    requires out.0.Replied? && out.0.resp.status == 200 ==>
      forall i :: 0 <= i < |parts| - 1 ==>
        && parts[1..][i].content.Some?
        && Target(parts[1..][i], dir, suffix) in out.1
        && out.1[Target(parts[1..][i], dir, suffix)].File?
    requires out.0.Replied? && out.0.resp.status == 200 ==>
      forall i :: 0 <= i < |parts| - 1 && LastFor(parts[1..], dir, suffix, i) ==>
        Carries(out.1[Target(parts[1..][i], dir, suffix)].data, parts[1..][i].content.value, truncate)
    ensures forall q :: q in fs && !IsTarget(parts, dir, suffix, q) ==> q in out.1 && out.1[q] == fs[q]
    ensures forall q :: q in out.1 ==> q in fs || IsTarget(parts, dir, suffix, q)
    ensures out.0.Replied? && out.0.resp.status == 200 ==>
      forall i :: 0 <= i < |parts| ==>
        && parts[i].content.Some?
        && Target(parts[i], dir, suffix) in out.1
        && out.1[Target(parts[i], dir, suffix)].File?
    ensures out.0.Replied? && out.0.resp.status == 200 ==>
      forall i :: 0 <= i < |parts| && LastFor(parts, dir, suffix, i) ==>
        Carries(out.1[Target(parts[i], dir, suffix)].data, parts[i].content.value, truncate)
  {
    var t0 := Target(parts[0], dir, suffix);
    RestTargets(parts, dir, suffix);
    forall q | q in fs && !IsTarget(parts, dir, suffix, q)
      ensures q in out.1 && out.1[q] == fs[q]
    {
      assert Target(parts[0], dir, suffix) != q;
    }
    forall q | q in out.1
      ensures q in fs || IsTarget(parts, dir, suffix, q)
    {
      if q == t0 {
        assert Target(parts[0], dir, suffix) == q;
      }
    }
    if out.0.Replied? && out.0.resp.status == 200 {
      StepStoresAll(parts, dir, suffix, fs1, out.1);
      StepCarriesLast(parts, dir, suffix, fs1, out.1, truncate);
    }
  }

  /**
   * A successful write leaves every path exactly as writable as before: the
   * target stays a file, and no directory appears or disappears.
   */
  lemma WriteKeepsWritable(fs: FS, p: string, data: seq<byte>, now: int, truncate: bool, fs1: FS)
    requires WritePart(fs, p, data, now, truncate) == Ok(fs1)
    ensures forall q :: Writable(fs1, q) <==> Writable(fs, q)
  {
    assert forall q :: IsDir(fs1, q) <==> IsDir(fs, q) by {
      forall q
        ensures IsDir(fs1, q) <==> IsDir(fs, q)
      {
        if q != p {
          assert q in fs1 <==> q in fs;
        }
      }
    }
    forall q
      ensures Writable(fs1, q) <==> Writable(fs, q)
    {
      if q != p {
        assert q in fs1 <==> q in fs;
      }
    }
  }

  /** The whole form can be stored exactly when its first part can and, after that write, the rest. */
  lemma CanStoreStep(parts: seq<Part>, dir: string, suffix: string, fs: FS, fs1: FS)
    requires |parts| > 0
    requires forall q :: Writable(fs1, q) <==> Writable(fs, q)
    ensures CanStoreAll(parts, dir, suffix, fs) <==>
      parts[0].content.Some? && Writable(fs, Target(parts[0], dir, suffix)) && CanStoreAll(parts[1..], dir, suffix, fs1)
  {
    if parts[0].content.Some? && Writable(fs, Target(parts[0], dir, suffix)) && CanStoreAll(parts[1..], dir, suffix, fs1) {
      forall i | 1 <= i < |parts|
        ensures parts[i].content.Some? && Writable(fs, Target(parts[i], dir, suffix))
      {
        assert parts[i] == parts[1..][i - 1];
      }
    }
  }

  /** A target of the later parts is a target of the whole form. */
  lemma RestTargets(parts: seq<Part>, dir: string, suffix: string)
    requires |parts| > 0
    ensures forall q :: IsTarget(parts[1..], dir, suffix, q) ==> IsTarget(parts, dir, suffix, q)
  {
    forall q | IsTarget(parts[1..], dir, suffix, q)
      ensures IsTarget(parts, dir, suffix, q)
    {
      var i :| 0 <= i < |parts[1..]| && Target(parts[1..][i], dir, suffix) == q;
      assert Target(parts[i + 1], dir, suffix) == q;
    }
  }

  lemma StepStoresAll(parts: seq<Part>, dir: string, suffix: string, fs1: FS, fs2: FS)
    requires |parts| > 0 && parts[0].content.Some?
    requires Target(parts[0], dir, suffix) in fs1 && fs1[Target(parts[0], dir, suffix)].File?
    requires forall q :: q in fs1 && !IsTarget(parts[1..], dir, suffix, q) ==> q in fs2 && fs2[q] == fs1[q]
    requires forall i :: 0 <= i < |parts| - 1 ==>
        && parts[1..][i].content.Some?
        && Target(parts[1..][i], dir, suffix) in fs2
        && fs2[Target(parts[1..][i], dir, suffix)].File?
    ensures forall i :: 0 <= i < |parts| ==>
        && parts[i].content.Some?
        && Target(parts[i], dir, suffix) in fs2
        && fs2[Target(parts[i], dir, suffix)].File?
  {
    var t0 := Target(parts[0], dir, suffix);
    if IsTarget(parts[1..], dir, suffix, t0) {
      var j :| 0 <= j < |parts[1..]| && Target(parts[1..][j], dir, suffix) == t0;
    }
    forall i | 1 <= i < |parts|
      ensures parts[i].content.Some? && Target(parts[i], dir, suffix) in fs2 && fs2[Target(parts[i], dir, suffix)].File?
    {
      assert parts[i] == parts[1..][i - 1];
    }
  }

  lemma StepCarriesLast(parts: seq<Part>, dir: string, suffix: string, fs1: FS, fs2: FS, truncate: bool)
    requires |parts| > 0 && parts[0].content.Some?
    requires Target(parts[0], dir, suffix) in fs1 && fs1[Target(parts[0], dir, suffix)].File?
    requires Carries(fs1[Target(parts[0], dir, suffix)].data, parts[0].content.value, truncate)
    requires forall q :: q in fs1 && !IsTarget(parts[1..], dir, suffix, q) ==> q in fs2 && fs2[q] == fs1[q]
    requires forall i :: 0 <= i < |parts| ==>
        && parts[i].content.Some?
        && Target(parts[i], dir, suffix) in fs2 && fs2[Target(parts[i], dir, suffix)].File?
    requires forall i :: 0 <= i < |parts| - 1 && LastFor(parts[1..], dir, suffix, i) ==>
        Carries(fs2[Target(parts[1..][i], dir, suffix)].data, parts[1..][i].content.value, truncate)
    ensures forall i :: 0 <= i < |parts| && LastFor(parts, dir, suffix, i) ==>
        Carries(fs2[Target(parts[i], dir, suffix)].data, parts[i].content.value, truncate)
  {
    if LastFor(parts, dir, suffix, 0) {
      LastFirstNotLater(parts, dir, suffix);
    }
    forall i | 1 <= i < |parts| && LastFor(parts, dir, suffix, i)
      ensures Carries(fs2[Target(parts[i], dir, suffix)].data, parts[i].content.value, truncate)
    {
      LastForShift(parts, dir, suffix, i);
    }
  }

  /** A part that is last for its target has no later part with that target. */
  lemma LastFirstNotLater(parts: seq<Part>, dir: string, suffix: string)
    requires |parts| > 0 && LastFor(parts, dir, suffix, 0)
    ensures !IsTarget(parts[1..], dir, suffix, Target(parts[0], dir, suffix))
  {
    forall j | 0 <= j < |parts[1..]|
      ensures Target(parts[1..][j], dir, suffix) != Target(parts[0], dir, suffix)
    {
      assert parts[1..][j] == parts[j + 1];
    }
  }

  lemma LastForShift(parts: seq<Part>, dir: string, suffix: string, i: int)
    requires 1 <= i < |parts| && LastFor(parts, dir, suffix, i)
    ensures parts[1..][i - 1] == parts[i]
    ensures LastFor(parts[1..], dir, suffix, i - 1)
  {
    forall j | i - 1 < j < |parts[1..]|
      ensures Target(parts[1..][j], dir, suffix) != Target(parts[1..][i - 1], dir, suffix)
    {
      assert parts[1..][j] == parts[j + 1];
    }
  }

  const PathError := "Error current directory"

  const HijackError := "webserver doesn't support hijacking"

  /**
   * The part of upload before any file is stored (trans.go:682-740): GET
   * serves the upload page, a `..` in `a` is refused with 403, and a target
   * that is not a directory aborts the request. None means the form is read
   * and stored.
   */
  function Gate(r: Request, dst: string, fs: FS, transport: Transport, env: Env): (g: Option<Reply>)
    ensures g.None? <==> r.verb != "GET" && Acceptable(dst, QueryGet(r, "a"), fs)
    ensures r.verb == "GET" ==> g == Some(Replied(env.uploadPage(r)))
    ensures r.verb != "GET" && ContainsDotDot(QueryGet(r, "a")) ==>
      g == Some(Replied(Error(map[], PathError, 403)))
    ensures r.verb != "GET" && !ContainsDotDot(QueryGet(r, "a")) && !IsDir(fs, UploadDir(dst, QueryGet(r, "a"))) ==>
      g == Some(if !transport.formParses then Replied(Response(200, map[], Text("")))
                else if !transport.hijackable then Replied(Error(map[], HijackError, 500))
                else Hijacked)
  {
    if r.verb == "GET" then Some(Replied(env.uploadPage(r)))
    else
      var c := QueryGet(r, "a");
      if ContainsDotDot(c) then Some(Replied(Error(map[], PathError, 403)))
      else if !IsDir(fs, UploadDir(dst, c)) then
        if !transport.formParses then Some(Replied(Response(200, map[], Text(""))))
        else if !transport.hijackable then Some(Replied(Error(map[], HijackError, 500)))
        else Some(Hijacked)
      else None
  }

  /** An upload goes ahead exactly when check_dir_handler approves its directory. */
  lemma GateAgreesWithCheckDir(r: Request, dst: string, fs: FS, transport: Transport, env: Env)
    requires r.verb != "GET"
    ensures Gate(r, dst, fs, transport, env).None? <==> CheckDirHandler(r, dst, fs).status == 200
  {
  }

  /**
   * upload, with the in-place write of the source (`truncate` false) or the
   * truncating one: past the gate the form's files are stored in the
   * directory named by `a`, with the UUID suffix when `b` is "1"; a request
   * without a multipart form ends the connection.
   */
  function UploadWith(r: Request, dst: string, fs: FS, uuid: string, transport: Transport,
                      form: Option<seq<Part>>, now: int, env: Env, truncate: bool): (out: (Reply, FS))
    ensures Gate(r, dst, fs, transport, env).Some? ==> out == (Gate(r, dst, fs, transport, env).value, fs)
    ensures Gate(r, dst, fs, transport, env).None? && form.None? ==> out == (Dropped, fs)
    ensures out.1 != fs ==> Gate(r, dst, fs, transport, env).None? && form.Some?
    ensures Gate(r, dst, fs, transport, env).None? && form.Some? ==>
      var dir := UploadDir(dst, QueryGet(r, "a"));
      var suffix := UploadSuffix(QueryGet(r, "b"), uuid);
      && (out.0 == Replied(Response(200, map[], Text(""))) || out.0 == Replied(Error(map[], "eror", 500)))
      && OnlyTargetsChanged(form.value, dir, suffix, fs, out.1)
      && (out.0.resp.status == 200 ==> StoredAll(form.value, dir, suffix, out.1))
      && (out.0.resp.status == 200 <==> CanStoreAll(form.value, dir, suffix, fs))
      && (out.0.resp.status == 200 ==> CarriesLastUpload(form.value, dir, suffix, out.1, truncate))
      && (out.0.resp.status == 200 && truncate ==> HoldsLastUpload(form.value, dir, suffix, out.1))
  {
    match Gate(r, dst, fs, transport, env)
    case Some(reply) => (reply, fs)
    case None =>
      match form
      case None => (Dropped, fs)
      case Some(parts) =>
        StoreParts(parts, UploadDir(dst, QueryGet(r, "a")), UploadSuffix(QueryGet(r, "b"), uuid), fs, now, truncate)
  }

  /** upload as written: files are opened without O_TRUNC. */
  function UploadHandler(r: Request, dst: string, fs: FS, uuid: string, transport: Transport,
                         form: Option<seq<Part>>, now: int, env: Env): (out: (Reply, FS))
    ensures Gate(r, dst, fs, transport, env).Some? ==> out == (Gate(r, dst, fs, transport, env).value, fs)
    ensures Gate(r, dst, fs, transport, env).None? && form.None? ==> out == (Dropped, fs)
    ensures out.1 != fs ==> r.verb != "GET" && Acceptable(dst, QueryGet(r, "a"), fs) && form.Some?
    ensures r.verb != "GET" && Acceptable(dst, QueryGet(r, "a"), fs) && form.Some? ==>
      var dir := UploadDir(dst, QueryGet(r, "a"));
      var suffix := UploadSuffix(QueryGet(r, "b"), uuid);
      && (out.0 == Replied(Response(200, map[], Text(""))) || out.0 == Replied(Error(map[], "eror", 500)))
      && OnlyTargetsChanged(form.value, dir, suffix, fs, out.1)
      && (out.0.resp.status == 200 <==> CanStoreAll(form.value, dir, suffix, fs))
      && (out.0.resp.status == 200 ==> StoredAll(form.value, dir, suffix, out.1))
      && (out.0.resp.status == 200 ==> CarriesLastUpload(form.value, dir, suffix, out.1, false))
  {
    UploadWith(r, dst, fs, uuid, transport, form, now, env, false)
  }

  /** upload with O_TRUNC added: every stored file holds exactly the last bytes uploaded to it. */
  function UploadCorrected(r: Request, dst: string, fs: FS, uuid: string, transport: Transport,
                           form: Option<seq<Part>>, now: int, env: Env): (out: (Reply, FS))
    ensures out.1 != fs ==> r.verb != "GET" && Acceptable(dst, QueryGet(r, "a"), fs) && form.Some?
    ensures r.verb != "GET" && Acceptable(dst, QueryGet(r, "a"), fs) && form.Some? ==>
      var dir := UploadDir(dst, QueryGet(r, "a"));
      var suffix := UploadSuffix(QueryGet(r, "b"), uuid);
      && (out.0 == Replied(Response(200, map[], Text(""))) || out.0 == Replied(Error(map[], "eror", 500)))
      && (out.0.resp.status == 200 <==> CanStoreAll(form.value, dir, suffix, fs))
      && (out.0.resp.status == 200 ==> HoldsLastUpload(form.value, dir, suffix, out.1))
  {
    UploadWith(r, dst, fs, uuid, transport, form, now, env, true)
  }

  /**
   * The names a multipart part can carry: the file name of a part is
   * path.Base of the header's name, so "/" or a non-empty name without a
   * slash, "." and ".." included.
   */
  predicate IsBaseName(f: string)
  {
    f == "/" || (f != "" && NoneIn(f, Slashes))
  }

  /**
   * A stored name has no `..` element, except when a part is called ".."
   * and no suffix is added.
   */
  lemma StoredNameHasNoParent(f: string, suffix: string)
    requires IsBaseName(f) && GoodSuffix(suffix)
    requires !(f == ".." && suffix == "")
    ensures ".." !in Split(StoredName(f, suffix), Slashes)
  {
    var (stem, ext) := SplitFilename(f);
    var n := StoredName(f, suffix);
    if suffix == "" {
      StoredNameWithoutSuffix(f);
      if f == "/" {
        assert f == "/" + "";
        SplitAfterSlash("");
        SplitEmpty();
      } else {
        FirstSepOfFree(f, Slashes);
        assert Split(f, Slashes) == [f];
      }
    } else if f == "/" {
      assert !FinalElementHasDot(f);
      assert stem == "/" && ext == "";
      assert n == "/" + suffix;
      SplitAfterSlash(suffix);
      FirstSepOfFree(suffix, Slashes);
      assert Split(suffix, Slashes) == [suffix];
      assert suffix[1] != '.';
    } else {
      assert stem + ext == f;
      forall i | 0 <= i < |n|
        ensures n[i] !in Slashes
      {
        if i < |stem| {
          assert n[i] == f[i];
        } else if i < |stem| + |suffix| {
          assert n[i] == suffix[i - |stem|];
        } else {
          assert n[i] == f[i - |suffix|];
        }
      }
      FirstSepOfFree(n, Slashes);
      assert Split(n, Slashes) == [n];
      assert n[|stem| + 1] == suffix[1];
    }
  }

  /** A part called ".." with no suffix is written over the parent of the upload directory. */
  lemma ParentNameTargetsParent(dir: string, p: Part)
    requires dir != "" && p.filename == ".."
    ensures Target(p, dir, "") == ParentOf(dir)
  {
    StoredNameWithoutSuffix(p.filename);
    assert dir + "/" + ".." == dir + "/..";
  }

  /**
   * Whatever `a` holds once it passes the `..` check, and whatever base
   * name a part carries short of a bare "..", the file is written at the
   * shared root's cleaned elements followed by names only: beneath the
   * root element by element, and beneath the cleaned root as a string when
   * the root is absolute.
   */
  lemma TargetStaysInShare(dst: string, c: string, p: Part, suffix: string)
    requires dst != "" && !ContainsDotDot(c)
    requires IsBaseName(p.filename) && GoodSuffix(suffix)
    requires !(p.filename == ".." && suffix == "")
    ensures var t := Target(p, UploadDir(dst, c), suffix);
      var k := Kept(Split(c, Slashes)) + Kept(Split(StoredName(p.filename, suffix), Slashes));
      && IsRooted(t) == IsRooted(dst)
      && CleanStack(t) == CleanStack(dst) + k
      && (forall i :: 0 <= i < |k| ==> IsName(k[i]))
    ensures Beneath(Target(p, UploadDir(dst, c), suffix), dst)
    ensures IsRooted(dst) ==> Within(Target(p, UploadDir(dst, c), suffix), Clean(dst))
  {
    var dir := UploadDir(dst, c);
    var n := StoredName(p.filename, suffix);
    var kc := Kept(Split(c, Slashes));
    var kn := Kept(Split(n, Slashes));
    var t := Target(p, dir, suffix);
    PassedHasNoParentElement(c);
    JoinedStack(dst, c);
    StoredNameHasNoParent(p.filename, suffix);
    JoinedStack(dir, n);
    ConcatAssoc(CleanStack(dst), kc, kn);
    var k := kc + kn;
    assert CleanStack(t) == CleanStack(dst) + k;
    assert forall i :: 0 <= i < |k| ==> IsName(k[i]) by {
      forall i | 0 <= i < |k|
        ensures IsName(k[i])
      {
        if i >= |kc| {
          assert k[i] == kn[i - |kc|];
        }
      }
    }
    assert CleanStack(t)[..|CleanStack(dst)|] == CleanStack(dst);
    forall i | |CleanStack(dst)| <= i < |CleanStack(t)|
      ensures IsName(CleanStack(t)[i])
    {
      assert CleanStack(t)[i] == k[i - |CleanStack(dst)|];
    }
    if IsRooted(dst) {
      CleanRooted(dst);
      CleanIsRender(dst);
      RenderWithin(CleanStack(dst), k);
    }
  }

  /**
   * upload as written never writes outside the shared root when the file
   * tree is well formed (a directory's parent is a directory) and the
   * suffix comes from a UUID: every path it changes lies beneath the root.
   * A part called ".." without the suffix aims at the parent of the upload
   * directory, which is a directory, so its write fails.
   */
  lemma UploadStaysInShare(r: Request, dst: string, fs: FS, uuid: string, transport: Transport,
                           form: Option<seq<Part>>, now: int, env: Env)
    requires dst != ""
    requires form.Some? ==> forall i :: 0 <= i < |form.value| ==> IsBaseName(form.value[i].filename)
    requires QueryGet(r, "b") == "1" ==> IsUuidText(uuid)
    requires IsDir(fs, UploadDir(dst, QueryGet(r, "a"))) ==> IsDir(fs, ParentOf(UploadDir(dst, QueryGet(r, "a"))))
    ensures var out := UploadHandler(r, dst, fs, uuid, transport, form, now, env);
      forall q :: q in out.1 && (q !in fs || out.1[q] != fs[q]) ==>
        Beneath(q, dst) && (IsRooted(dst) ==> Within(q, Clean(dst)))
  {
    var out := UploadHandler(r, dst, fs, uuid, transport, form, now, env);
    if out.1 != fs {
      var c := QueryGet(r, "a");
      var dir := UploadDir(dst, c);
      var suffix := UploadSuffix(QueryGet(r, "b"), uuid);
      var parts := form.value;
      assert Gate(r, dst, fs, transport, env).None?;
      assert out == StoreParts(parts, dir, suffix, fs, now, false);
      if QueryGet(r, "b") == "1" {
        UuidSuffix(uuid);
      }
      assert GoodSuffix(suffix);
      forall q | q in out.1 && (q !in fs || out.1[q] != fs[q])
        ensures Beneath(q, dst) && (IsRooted(dst) ==> Within(q, Clean(dst)))
      {
        var i :| 0 <= i < |parts| && Target(parts[i], dir, suffix) == q;
        if parts[i].filename == ".." && suffix == "" {
          ParentNameTargetsParent(dir, parts[i]);
          assert false;
        }
        TargetStaysInShare(dst, c, parts[i], suffix);
      }
    }
  }
}
