/**
 * Lexical path handling on a slash-separated host: Go's path.Clean, path.Base,
 * filepath.Join and filepath.Ext, and the file-name split used when uploads
 * are stored (split_filename, trans.go:51-56).
 */
module Paths {
  import opened Segments

  const Slashes: set<char> := {'/'}

  predicate IsRooted(p: string)
  {
    |p| > 0 && p[0] == '/'
  }

  /** A path element that names an entry: not empty, not `.` or `..`, no slash. */
  predicate IsName(seg: string)
  {
    seg != "" && seg != "." && seg != ".." && NoneIn(seg, Slashes)
  }

  /**
   * The shape of a cleaned element stack: every element is a name, except
   * that an unrooted path may start with a run of `..` elements.
   */
  predicate Normal(stack: seq<string>, rooted: bool)
  {
    && (forall i :: 0 <= i < |stack| ==> IsName(stack[i]) || (!rooted && stack[i] == ".."))
    && (forall i, j :: 0 <= i < j < |stack| && stack[j] == ".." ==> stack[i] == "..")
  }

  /** One element of the lexical walk performed by path.Clean. */
  function Step(stack: seq<string>, seg: string, rooted: bool): seq<string>
  {
    if seg == "" || seg == "." then stack
    else if seg == ".." then
      if |stack| > 0 && stack[|stack| - 1] != ".." then stack[..|stack| - 1]
      else if rooted then stack
      else stack + [".."]
    else stack + [seg]
  }

  function Walk(stack: seq<string>, segs: seq<string>, rooted: bool): seq<string>
    decreases |segs|
  {
    if |segs| == 0 then stack
    else Walk(Step(stack, segs[0], rooted), segs[1..], rooted)
  }

  /** The elements that survive cleaning `p`, in order. */
  function CleanStack(p: string): seq<string>
  {
    Walk([], Split(p, Slashes), IsRooted(p))
  }

  function Render(rooted: bool, stack: seq<string>): string
  {
    if rooted then "/" + Join(stack, '/')
    else if |stack| == 0 then "."
    else Join(stack, '/')
  }

  /**
   * path.Clean: collapse repeated slashes, drop `.` elements, let `..` remove
   * the element before it, drop `..` at the start of a rooted path, drop a
   * trailing slash, and turn an empty result into ".".
   */
  function Clean(p: string): (r: string)
    ensures |r| > 0
    ensures IsRooted(r) <==> IsRooted(p)
    ensures Normal(CleanStack(p), IsRooted(p))
  {
    CleanStackNormal(p);
    var st := CleanStack(p);
    if !IsRooted(p) && |st| > 0 then
      assert IsName(st[0]) || st[0] == "..";
      JoinStartsWithFirst(st);
      Render(IsRooted(p), st)
    else
      Render(IsRooted(p), st)
  }

  lemma JoinStartsWithFirst(st: seq<string>)
    requires |st| > 0 && (IsName(st[0]) || st[0] == "..")
    ensures |Join(st, '/')| > 0 && Join(st, '/')[0] == st[0][0]
  {
  }

  /** filepath.Join(a, b) on a slash host: empty arguments are skipped, the result is cleaned. */
  function JoinPath(a: string, b: string): string
  {
    if a != "" then Clean(a + "/" + b)
    else if b != "" then Clean(b)
    else ""
  }

  lemma {:induction false} WalkAppend(stack: seq<string>, a: seq<string>, b: seq<string>, rooted: bool)
    ensures Walk(stack, a + b, rooted) == Walk(Walk(stack, a, rooted), b, rooted)
    decreases |a|
  {
    if |a| > 0 {
      assert (a + b)[0] == a[0];
      assert (a + b)[1..] == a[1..] + b;
      WalkAppend(Step(stack, a[0], rooted), a[1..], b, rooted);
    } else {
      assert a + b == b;
    }
  }

  /** Names are pushed one after the other: no element is removed. */
  lemma {:induction false} WalkNames(stack: seq<string>, names: seq<string>, rooted: bool)
    requires forall i :: 0 <= i < |names| ==> IsName(names[i])
    ensures Walk(stack, names, rooted) == stack + names
    decreases |names|
  {
    if |names| > 0 {
      WalkNames(stack + [names[0]], names[1..], rooted);
      ConcatAssoc(stack, [names[0]], names[1..]);
      assert [names[0]] + names[1..] == names;
    }
  }

  lemma StepNormal(stack: seq<string>, seg: string, rooted: bool)
    requires Normal(stack, rooted) && NoneIn(seg, Slashes)
    ensures Normal(Step(stack, seg, rooted), rooted)
  {
    var r := Step(stack, seg, rooted);
    if seg == ".." && |stack| > 0 && stack[|stack| - 1] != ".." {
      assert forall i :: 0 <= i < |r| ==> r[i] == stack[i];
    } else if seg == ".." && !rooted {
      assert r == stack + [".."];
      assert forall i :: 0 <= i < |stack| ==> r[i] == stack[i];
      assert forall i :: 0 <= i < |stack| ==> stack[i] == "..";
    } else if seg != "" && seg != "." && seg != ".." {
      assert r == stack + [seg];
      assert forall i :: 0 <= i < |stack| ==> r[i] == stack[i];
    }
  }

  lemma {:induction false} WalkNormal(stack: seq<string>, segs: seq<string>, rooted: bool)
    requires Normal(stack, rooted)
    requires forall i :: 0 <= i < |segs| ==> NoneIn(segs[i], Slashes)
    ensures Normal(Walk(stack, segs, rooted), rooted)
    decreases |segs|
  {
    if |segs| > 0 {
      StepNormal(stack, segs[0], rooted);
      WalkNormal(Step(stack, segs[0], rooted), segs[1..], rooted);
    }
  }

  lemma CleanStackNormal(p: string)
    ensures Normal(CleanStack(p), IsRooted(p))
  {
    WalkNormal([], Split(p, Slashes), IsRooted(p));
  }

  /** A rooted path cleans to "/" followed by names joined with slashes. */
  lemma CleanRooted(p: string)
    requires IsRooted(p)
    ensures Clean(p) == "/" + Join(CleanStack(p), '/')
    ensures forall i :: 0 <= i < |CleanStack(p)| ==> IsName(CleanStack(p)[i])
  {
    CleanStackNormal(p);
    var st := CleanStack(p);
    assert Normal(st, true);
  }

  /** The elements of "/" followed by names are "" and then those names. */
  lemma SplitRootedNames(t: seq<string>)
    requires forall i :: 0 <= i < |t| ==> IsName(t[i])
    ensures Split("/" + Join(t, '/'), Slashes) == [""] + (if |t| == 0 then [""] else t)
  {
    var j := Join(t, '/');
    SplitAfterSlash(j);
    if |t| > 0 {
      SplitJoin(t, '/');
    } else {
      assert j == "";
      SplitEmpty();
    }
  }

  lemma SplitEmpty()
    ensures Split("", Slashes) == [""]
  {
  }

  /** A leading slash contributes one empty element. */
  lemma SplitAfterSlash(j: string)
    ensures Split("/" + j, Slashes) == [""] + Split(j, Slashes)
  {
    assert "/" + j == "" + ['/'] + j;
    SplitAppend("", j, '/');
    SplitEmpty();
  }

  /** Walking "/" followed by names pushes exactly those names. */
  lemma WalkRootedNames(stack: seq<string>, t: seq<string>, rooted: bool)
    requires forall i :: 0 <= i < |t| ==> IsName(t[i])
    ensures Walk(stack, Split("/" + Join(t, '/'), Slashes), rooted) == stack + t
  {
    SplitRootedNames(t);
    if |t| == 0 {
      assert Walk(stack, ["", ""], rooted) == stack;
    } else {
      assert ([""] + t)[1..] == t;
      WalkNames(stack, t, rooted);
    }
  }

  /**
   * The containment rule of Dir.Open (trans.go:89): joining a non-empty
   * directory with Clean("/" + name) yields the directory's own cleaned
   * elements followed only by names, so no `..` of the request survives.
   */
  lemma {:induction false} JoinedStaysWithin(dir: string, name: string)
    requires dir != ""
    ensures forall i :: 0 <= i < |CleanStack("/" + name)| ==> IsName(CleanStack("/" + name)[i])
    ensures JoinPath(dir, Clean("/" + name))
         == Render(IsRooted(dir), CleanStack(dir) + CleanStack("/" + name))
  {
    var t := CleanStack("/" + name);
    CleanRooted("/" + name);
    var x := Clean("/" + name);
    var q := dir + "/" + x;
    assert IsRooted(q) == IsRooted(dir);
    assert q == dir + ['/'] + x;
    SplitAppend(dir, x, '/');
    WalkAppend([], Split(dir, Slashes), Split(x, Slashes), IsRooted(dir));
    WalkRootedNames(CleanStack(dir), t, IsRooted(dir));
    assert CleanStack(q) == CleanStack(dir) + t;
  }

  /** The elements of `segs` that name entries: empty and `.` elements dropped. */
  function Kept(segs: seq<string>): (r: seq<string>)
    ensures forall x :: x in r <==> x in segs && x != "" && x != "."
  {
    if |segs| == 0 then []
    else if segs[0] == "" || segs[0] == "." then Kept(segs[1..])
    else [segs[0]] + Kept(segs[1..])
  }

  /** Without `..` elements the walk only appends the named elements. */
  lemma {:induction false} WalkWithoutParent(stack: seq<string>, segs: seq<string>, rooted: bool)
    requires forall i :: 0 <= i < |segs| ==> NoneIn(segs[i], Slashes) && segs[i] != ".."
    ensures Walk(stack, segs, rooted) == stack + Kept(segs)
    ensures forall i :: 0 <= i < |Kept(segs)| ==> IsName(Kept(segs)[i])
    decreases |segs|
  {
    if |segs| > 0 {
      var s0 := segs[0];
      WalkWithoutParent(Step(stack, s0, rooted), segs[1..], rooted);
      if s0 != "" && s0 != "." {
        ConcatAssoc(stack, [s0], Kept(segs[1..]));
      }
    }
  }

  /**
   * Joining a non-empty directory with a relative path that has no `..`
   * element keeps the directory's cleaned elements and appends only names.
   */
  lemma {:induction false} JoinWithoutParent(dir: string, rel: string)
    requires dir != ""
    requires ".." !in Split(rel, Slashes)
    ensures forall i :: 0 <= i < |Kept(Split(rel, Slashes))| ==> IsName(Kept(Split(rel, Slashes))[i])
    ensures CleanStack(dir + "/" + rel) == CleanStack(dir) + Kept(Split(rel, Slashes))
    ensures JoinPath(dir, rel) == Render(IsRooted(dir), CleanStack(dir) + Kept(Split(rel, Slashes)))
  {
    var q := dir + "/" + rel;
    assert IsRooted(q) == IsRooted(dir);
    assert q == dir + ['/'] + rel;
    SplitAppend(dir, rel, '/');
    WalkAppend([], Split(dir, Slashes), Split(rel, Slashes), IsRooted(dir));
    WalkWithoutParent(CleanStack(dir), Split(rel, Slashes), IsRooted(dir));
  }

  /** Walking a stack that is already in cleaned form appends it unchanged. */
  lemma {:induction false} WalkKeepsNormal(acc: seq<string>, st: seq<string>, rooted: bool)
    requires Normal(acc + st, rooted)
    ensures Walk(acc, st, rooted) == acc + st
    decreases |st|
  {
    if |st| > 0 {
      var all := acc + st;
      assert all[|acc|] == st[0];
      if st[0] == ".." {
        assert !rooted;
        if |acc| > 0 {
          assert all[|acc| - 1] == acc[|acc| - 1];
        }
      }
      ConcatAssoc(acc, [st[0]], st[1..]);
      assert acc + st == (acc + [st[0]]) + st[1..];
      WalkKeepsNormal(acc + [st[0]], st[1..], rooted);
    }
  }

  /** Rendering a stack in cleaned form and cleaning again recovers the stack. */
  lemma CleanStackOfRender(st: seq<string>, rooted: bool)
    requires Normal(st, rooted)
    ensures IsRooted(Render(rooted, st)) == rooted
    ensures CleanStack(Render(rooted, st)) == st
  {
    if rooted {
      WalkRootedNames([], st, true);
    } else if |st| == 0 {
      assert FirstSep(".", Slashes) == 1;
      assert Split(".", Slashes) == ["."];
      assert Walk([], ["."], false) == Walk([], [], false);
    } else {
      assert IsName(st[0]) || st[0] == "..";
      JoinStartsWithFirst(st);
      SplitJoin(st, '/');
      WalkKeepsNormal([], st, false);
    }
  }

  lemma CleanIsRender(p: string)
    ensures Clean(p) == Render(IsRooted(p), CleanStack(p))
  {
  }

  /** Cleaning is idempotent on element stacks. */
  lemma CleanStackOfClean(p: string)
    ensures CleanStack(Clean(p)) == CleanStack(p)
  {
    CleanIsRender(p);
    CleanStackNormal(p);
    CleanStackOfRender(CleanStack(p), IsRooted(p));
  }

  /** Joining a single name appends exactly that name to the cleaned stack. */
  lemma JoinNameStack(p: string, n: string)
    requires p != "" && IsName(n)
    ensures IsRooted(JoinPath(p, n)) == IsRooted(p)
    ensures CleanStack(JoinPath(p, n)) == CleanStack(p) + [n]
  {
    var q := p + "/" + n;
    assert q == p + ['/'] + n;
    assert IsRooted(q) == IsRooted(p);
    CleanStackOfClean(q);
    SplitAppend(p, n, '/');
    FirstSepOfFree(n, Slashes);
    assert Split(n, Slashes) == [n];
    WalkAppend([], Split(p, Slashes), [n], IsRooted(p));
    WalkNames(CleanStack(p), [n], IsRooted(p));
  }

  /** An absolute path extended by names lies beneath the path it extends. */
  lemma RenderWithin(d: seq<string>, t: seq<string>)
    requires forall i :: 0 <= i < |d| ==> IsName(d[i])
    ensures Within(Render(true, d + t), Render(true, d))
  {
    var root := Render(true, d);
    if |d| > 0 && |t| > 0 {
      JoinAppend(d, t, '/');
      var full := (root + "/") + Join(t, '/');
      assert Render(true, d + t) == full;
      assert full[..|root| + 1] == root + "/";
    } else if |t| == 0 {
      assert d + t == d;
    } else {
      assert root == "/";
    }
  }

  /**
   * `path` lies beneath `root` element by element: it is rooted exactly when
   * `root` is, and its cleaned elements are those of `root` followed by
   * names only. Unlike Within this also covers relative roots such as ".".
   */
  predicate Beneath(path: string, root: string)
  {
    && IsRooted(path) == IsRooted(root)
    && |CleanStack(root)| <= |CleanStack(path)|
    && CleanStack(path)[..|CleanStack(root)|] == CleanStack(root)
    && forall i :: |CleanStack(root)| <= i < |CleanStack(path)| ==> IsName(CleanStack(path)[i])
  }

  /** Joining a relative path without `..` elements to a directory appends its names. */
  lemma JoinedStack(dir: string, rel: string)
    requires dir != ""
    requires ".." !in Split(rel, Slashes)
    ensures IsRooted(JoinPath(dir, rel)) == IsRooted(dir)
    ensures CleanStack(JoinPath(dir, rel)) == CleanStack(dir) + Kept(Split(rel, Slashes))
    ensures JoinPath(dir, rel) == Render(IsRooted(dir), CleanStack(dir) + Kept(Split(rel, Slashes)))
    ensures forall i :: 0 <= i < |Kept(Split(rel, Slashes))| ==> IsName(Kept(Split(rel, Slashes))[i])
  {
    JoinWithoutParent(dir, rel);
    CleanStackOfClean(dir + "/" + rel);
  }

  /** `path` is `root` itself or lies beneath it, by string prefix and separator. */
  predicate Within(path: string, root: string)
  {
    path == root
    || (root == "/" && IsRooted(path))
    || (|root| + 1 <= |path| && path[..|root| + 1] == root + "/")
  }

  /**
   * For an absolute root the containment is also a string fact: the opened
   * path is the cleaned root or starts with the cleaned root and a slash.
   */
  lemma {:induction false} JoinedWithinRoot(dir: string, name: string)
    requires IsRooted(dir)
    ensures Within(JoinPath(dir, Clean("/" + name)), Clean(dir))
  {
    JoinedStaysWithin(dir, name);
    CleanRooted(dir);
    var d := CleanStack(dir);
    var t := CleanStack("/" + name);
    var full := JoinPath(dir, Clean("/" + name));
    assert full == "/" + Join(d + t, '/');
    if |d| > 0 && |t| > 0 {
      JoinAppend(d, t, '/');
      assert full == ("/" + Join(d, '/')) + "/" + Join(t, '/');
    } else if |t| == 0 {
      assert d + t == d;
    } else {
      assert Clean(dir) == "/" + Join(d, '/') == "/";
    }
  }

  /** Cleaning a cleaned rooted path changes nothing. */
  lemma CleanRootedIdempotent(p: string)
    requires IsRooted(p)
    ensures Clean(Clean(p)) == Clean(p)
  {
    CleanRooted(p);
    var t := CleanStack(p);
    WalkRootedNames([], t, true);
    assert CleanStack(Clean(p)) == t;
  }

  /** An extra leading slash before a rooted path is absorbed by cleaning. */
  lemma CleanExtraSlash(q: string)
    requires IsRooted(q)
    ensures Clean("/" + q) == Clean(q)
  {
    assert "/" + q == "" + ['/'] + q;
    SplitAppend("", q, '/');
    assert Split("/" + q, Slashes) == [""] + Split(q, Slashes);
    assert ([""] + Split(q, Slashes))[1..] == Split(q, Slashes);
  }

  predicate AllSlashes(p: string)
  {
    forall i :: 0 <= i < |p| ==> p[i] == '/'
  }

  /** path.Base: the last element, ignoring trailing slashes. */
  function Base(p: string): (r: string)
    ensures r != ""
    ensures r == "/" || NoneIn(r, Slashes)
    ensures p == "" ==> r == "."
    ensures r == "/" <==> p != "" && AllSlashes(p)
  {
    if p == "" then "."
    else
      var t := TrimTrailingSlashes(p);
      var b := AfterLastSlash(t);
      if b == "" then "/" else b
  }

  function TrimTrailingSlashes(p: string): (r: string)
    ensures |r| <= |p| && r == p[..|r|]
    ensures |r| > 0 ==> r[|r| - 1] != '/'
    ensures forall i :: |r| <= i < |p| ==> p[i] == '/'
  {
    if |p| > 0 && p[|p| - 1] == '/' then TrimTrailingSlashes(p[..|p| - 1]) else p
  }

  /** The part of `p` after its last slash (all of `p` when it has none). */
  function AfterLastSlash(p: string): (r: string)
    ensures NoneIn(r, Slashes)
    ensures |r| <= |p| && r == p[|p| - |r|..]
    ensures |r| < |p| ==> p[|p| - |r| - 1] == '/'
  {
    if |p| == 0 then ""
    else if p[|p| - 1] == '/' then ""
    else
      var r' := AfterLastSlash(p[..|p| - 1]);
      assert p[..|p| - 1][|p| - 1 - |r'|..] == p[|p| - 1 - |r'|..|p| - 1];
      r' + [p[|p| - 1]]
  }

  /** The last non-empty element of a split path. */
  function LastNonEmpty(parts: seq<string>): string
  {
    if |parts| == 0 then ""
    else if parts[|parts| - 1] != "" then parts[|parts| - 1]
    else LastNonEmpty(parts[..|parts| - 1])
  }

  /**
   * Unless the path is empty or all slashes, path.Base is the last
   * non-empty element of the path split at its slashes.
   */
  lemma {:induction false} BaseIsLastElement(p: string)
    requires p != "" && !AllSlashes(p)
    ensures Base(p) == LastNonEmpty(Split(p, Slashes))
    decreases |p|
  {
    if p[|p| - 1] == '/' {
      var q := p[..|p| - 1];
      var i :| 0 <= i < |p| && p[i] != '/';
      assert q[i] == p[i];
      BaseIsLastElement(q);
      BaseTrailingSlash(p);
      assert p == q + "/";
      LastElementTrailingSlash(q);
    } else {
      BaseOfUnslashed(p);
    }
  }

  /** A trailing slash does not change path.Base. */
  lemma BaseTrailingSlash(p: string)
    requires p != "" && p[|p| - 1] == '/'
    requires !AllSlashes(p[..|p| - 1])
    ensures Base(p) == Base(p[..|p| - 1])
  {
    var q := p[..|p| - 1];
    assert q != "";
    assert TrimTrailingSlashes(p) == TrimTrailingSlashes(q);
  }

  /** A trailing slash does not change the last non-empty element. */
  lemma LastElementTrailingSlash(q: string)
    ensures LastNonEmpty(Split(q + "/", Slashes)) == LastNonEmpty(Split(q, Slashes))
  {
    assert Split(q + "/", Slashes) == Split(q, Slashes) + [""] by {
      assert q + "/" == q + ['/'] + "";
      SplitAppend(q, "", '/');
      SplitEmpty();
    }
    var parts := Split(q, Slashes) + [""];
    assert parts[..|parts| - 1] == Split(q, Slashes);
  }

  /** Without a trailing slash, path.Base is the last element of the split. */
  lemma BaseOfUnslashed(p: string)
    requires p != "" && p[|p| - 1] != '/'
    ensures Base(p) == LastNonEmpty(Split(p, Slashes))
  {
    assert TrimTrailingSlashes(p) == p;
    var b := AfterLastSlash(p);
    assert b != "";
    var k := |p| - |b|;
    if k == 0 {
      assert b == p[0..] == p;
      FirstSepOfFree(p, Slashes);
      assert Split(p, Slashes) == [p];
      assert [p][0] == p;
      assert Base(p) == p;
      assert LastNonEmpty([p]) == p;
      assert Base(p) == LastNonEmpty(Split(p, Slashes));
    } else {
      var pre := p[..k - 1];
      assert p[k..] == b;
      assert p[k - 1] == '/';
      PieceAround(p, k);
      LastElementAfterSlash(pre, b);
      assert Base(p) == b;
      assert Split(p, Slashes) == Split(pre + ['/'] + b, Slashes);
      assert Base(p) == LastNonEmpty(Split(p, Slashes));
    }
  }

  lemma PieceAround(p: string, k: nat)
    requires 0 < k <= |p|
    ensures p == p[..k - 1] + [p[k - 1]] + p[k..]
  {
  }

  lemma LastElementAfterSlash(pre: string, b: string)
    requires b != "" && NoneIn(b, Slashes)
    ensures LastNonEmpty(Split(pre + ['/'] + b, Slashes)) == b
  {
    SplitAppend(pre, b, '/');
    FirstSepOfFree(b, Slashes);
    assert Split(b, Slashes) == [b];
    var parts := Split(pre, Slashes) + [b];
    assert parts[|parts| - 1] == b;
  }

  /** What follows the last slash of `pre/b` is `b` when `b` has no slash. */
  lemma {:induction false} AfterLastSlashOf(pre: string, b: string)
    requires NoneIn(b, Slashes)
    ensures AfterLastSlash(pre + "/" + b) == b
    decreases |b|
  {
    var p := pre + "/" + b;
    if |b| > 0 {
      var b' := b[..|b| - 1];
      assert p[..|p| - 1] == pre + "/" + b';
      AfterLastSlashOf(pre, b');
      assert b' + [b[|b| - 1]] == b;
    } else {
      assert p[|p| - 1] == '/';
    }
  }

  /** The part of `p` up to and including its last slash. */
  function DirPrefix(p: string): string
  {
    p[..|p| - |AfterLastSlash(p)|]
  }

  /**
   * Reference merge of RFC 3986 section 5.2.3: a relative reference replaces
   * everything after the last slash of the base path.
   */
  function Merge(basePath: string, reference: string): string
  {
    DirPrefix(basePath) + reference
  }

  predicate IsAlpha(c: char)
  {
    'a' <= c <= 'z' || 'A' <= c <= 'Z'
  }

  predicate IsSchemeChar(c: char)
  {
    IsAlpha(c) || '0' <= c <= '9' || c == '+' || c == '-' || c == '.'
  }

  /**
   * The reference opens with a scheme (RFC 3986 section 3.1): a letter, then
   * letters, digits, `+`, `-` or `.`, then a colon.
   */
  predicate HasScheme(ref: string)
  {
    exists i :: 0 < i < |ref| && ref[i] == ':' && IsAlpha(ref[0]) && forall j :: 0 < j < i ==> IsSchemeChar(ref[j])
  }

  /** The path of a reference: everything before its first `?` or `#`. */
  function PathPart(ref: string): (r: string)
    ensures |r| <= |ref| && r == ref[..|r|]
    ensures forall i :: 0 <= i < |r| ==> r[i] != '?' && r[i] != '#'
    ensures |r| < |ref| ==> ref[|r|] == '?' || ref[|r|] == '#'
  {
    if |ref| == 0 || ref[0] == '?' || ref[0] == '#' then ""
    else [ref[0]] + PathPart(ref[1..])
  }

  /** The path part of a reference whose first piece has no `?` or `#`. */
  lemma {:induction false} PathPartAppend(a: string, b: string)
    requires forall i :: 0 <= i < |a| ==> a[i] != '?' && a[i] != '#'
    ensures PathPart(a + b) == a + PathPart(b)
    decreases |a|
  {
    if |a| > 0 {
      assert (a + b)[1..] == a[1..] + b;
      PathPartAppend(a[1..], b);
      assert [a[0]] + (a[1..] + PathPart(b)) == a + PathPart(b);
    } else {
      assert a + b == b;
    }
  }

  /**
   * The path a client lands on when it follows `reference` from a page at
   * `basePath` (RFC 3986 section 5.2.2), before dot segments are removed. A
   * reference with a scheme or an authority leaves the server and is
   * returned unresolved.
   */
  function Resolve(basePath: string, reference: string): string
  {
    if HasScheme(reference) || StartsWith(reference, "//") then reference
    else if StartsWith(reference, "/") then PathPart(reference)
    else if PathPart(reference) == "" then basePath
    else Merge(basePath, PathPart(reference))
  }

  /**
   * An element that reads as a relative path when it is sent unescaped in a
   * Location header followed by a slash.
   */
  predicate PlainReference(b: string)
  {
    !HasScheme(b + "/") && forall i :: 0 <= i < |b| ==> b[i] != '?' && b[i] != '#'
  }

  /**
   * The directory redirect target Base(url) + "/", followed by the query
   * when there is one (trans.go:311-312, 586-588), resolves against a rooted
   * url without a trailing slash to url + "/", provided the base name is a
   * plain reference.
   */
  lemma RedirectResolvesToSlashed(url: string, query: string)
    requires IsRooted(url) && url[|url| - 1] != '/'
    requires PlainReference(Base(url))
    requires query == "" || query[0] == '?'
    ensures Resolve(url, Base(url) + "/" + query) == url + "/"
  {
    assert TrimTrailingSlashes(url) == url;
    var b := AfterLastSlash(url);
    assert b != "";
    assert Base(url) == b;
    var ref := b + "/" + query;
    assert PathPart(ref) == b + "/" by {
      PathPartAppend(b + "/", query);
    }
    assert ref[0] == b[0];
    assert DirPrefix(url) + b == url;
  }

  /** path.Base of `pre/b` is `b` when `b` is a non-empty slash-free element. */
  lemma BaseAfterSlash(pre: string, b: string)
    requires b != "" && NoneIn(b, Slashes)
    ensures Base(pre + "/" + b) == b
  {
    var p := pre + "/" + b;
    assert p[|p| - 1] == b[|b| - 1];
    assert TrimTrailingSlashes(p) == p;
    AfterLastSlashOf(pre, b);
  }

  /** A directory whose name reads as a scheme is redirected off the server. */
  lemma SchemeNamedDirectoryLeaves()
    ensures var url := "/share/a:b";
      Base(url) == "a:b" && Resolve(url, Base(url) + "/") == "a:b/" != url + "/"
  {
    var url := "/share/a:b";
    assert url == "/share" + "/" + "a:b";
    BaseAfterSlash("/share", "a:b");
    var ref: string := "a:b/";
    assert Base(url) + "/" == ref;
    assert HasScheme(ref) by {
      assert ref[1] == ':' && IsAlpha(ref[0]);
    }
    assert |ref| != |url + "/"|;
  }

  /** A `?` in a directory name cuts the redirect target short. */
  lemma QueryNamedDirectoryTruncates()
    ensures var url := "/d/a?b";
      Base(url) == "a?b" && Resolve(url, Base(url) + "/") == "/d/a"
  {
    var url := "/d/a?b";
    QueryNamedParts();
    QueryReferenceShape();
    assert Resolve(url, "a?b/") == Merge(url, "a");
  }

  /** The base and directory prefix of "/d/a?b". */
  lemma QueryNamedParts()
    ensures Base("/d/a?b") == "a?b"
    ensures DirPrefix("/d/a?b") == "/d/"
    ensures "a?b" + "/" == "a?b/"
    ensures "/d/" + "a" == "/d/a"
  {
    QueryNamedBase();
    QueryNamedPrefix();
  }

  lemma QueryNamedBase()
    ensures Base("/d/a?b") == "a?b"
  {
    assert "/d/a?b" == "/d" + "/" + "a?b";
    BaseAfterSlash("/d", "a?b");
  }

  lemma QueryNamedPrefix()
    ensures DirPrefix("/d/a?b") == "/d/"
  {
    var url := "/d/a?b";
    assert url == "/d" + "/" + "a?b";
    AfterLastSlashOf("/d", "a?b");
    assert |url| - |AfterLastSlash(url)| == 3;
    assert url[..3] == "/d/";
  }

  /** "a?b/" is a relative reference whose path is "a". */
  lemma QueryReferenceShape()
    ensures !HasScheme("a?b/")
    ensures !StartsWith("a?b/", "/") && !StartsWith("a?b/", "//")
    ensures PathPart("a?b/") == "a"
  {
    var ref: string := "a?b/";
    forall i | 0 < i < |ref|
      ensures ref[i] != ':'
    {
    }
    assert ref[..1][0] == 'a' && ref[..2][0] == 'a';
    assert ref[1..] == "?b/";
    assert PathPart(ref) == ['a'] + PathPart("?b/");
  }

  /** No slash in `p` at or after index `j`. */
  predicate NoSlashFrom(p: string, j: int)
  {
    forall m :: 0 <= m < |p| && j <= m ==> p[m] != '/'
  }

  /**
   * Length of the extension filepath.Ext finds: the suffix from the last `.`
   * found scanning back from the end, stopping at a slash.
   */
  function ExtLen(p: string): (k: nat)
    ensures k <= |p|
    ensures k > 0 ==> p[|p| - k] == '.'
    ensures forall j :: |p| - k < j < |p| ==> p[j] != '.' && p[j] != '/'
    ensures k == 0 ==> forall j :: 0 <= j < |p| && NoSlashFrom(p, j) ==> p[j] != '.'
    decreases |p|
  {
    if |p| == 0 then 0
    else
      var c := p[|p| - 1];
      if c == '/' then 0
      else if c == '.' then 1
      else
        var k := ExtLen(p[..|p| - 1]);
        assert forall j :: 0 <= j < |p| - 1 && NoSlashFrom(p, j) ==> NoSlashFrom(p[..|p| - 1], j);
        if k == 0 then 0 else k + 1
  }

  /** filepath.Ext */
  function Ext(p: string): string
  {
    p[|p| - ExtLen(p)..]
  }

  /** The final element of `p` contains a dot. */
  predicate FinalElementHasDot(p: string)
  {
    exists j :: 0 <= j < |p| && p[j] == '.' && NoSlashFrom(p, j)
  }

  /**
   * split_filename (trans.go:51-56): the name before its extension and the
   * extension itself.
   */
  function SplitFilename(fn: string): (r: (string, string))
    ensures r.0 + r.1 == fn
    ensures r.1 == "" || r.1[0] == '.'
    ensures forall i :: 1 <= i < |r.1| ==> r.1[i] != '.' && r.1[i] != '/'
    ensures r.1 != "" <==> FinalElementHasDot(fn)
  {
    ExtShape(fn);
    ExtPresentIff(fn);
    var stem := fn[..|fn| - ExtLen(fn)];
    assert stem + Ext(fn) == fn;
    (stem, Ext(fn))
  }

  /** An extension is a dot followed by characters that are neither dots nor slashes. */
  lemma ExtShape(p: string)
    ensures Ext(p) == "" || Ext(p)[0] == '.'
    ensures forall i :: 1 <= i < |Ext(p)| ==> Ext(p)[i] != '.' && Ext(p)[i] != '/'
  {
    var k := ExtLen(p);
    var e := Ext(p);
    assert forall i :: 0 <= i < |e| ==> e[i] == p[|p| - k + i];
  }

  /** There is an extension exactly when the final element contains a dot. */
  lemma ExtPresentIff(p: string)
    ensures Ext(p) != "" <==> FinalElementHasDot(p)
  {
    var k := ExtLen(p);
    if k > 0 {
      assert NoSlashFrom(p, |p| - k);
      assert p[|p| - k] == '.';
    }
  }

  /** A dotted suffix free of further dots and slashes is the extension of whatever it ends. */
  lemma {:induction false} ExtOfDottedSuffix(p: string, e: string)
    requires |e| > 0 && e[0] == '.'
    requires forall i :: 1 <= i < |e| ==> e[i] != '.' && e[i] != '/'
    ensures ExtLen(p + e) == |e|
    ensures Ext(p + e) == e
    decreases |e|
  {
    var q := p + e;
    assert q[|q| - 1] == e[|e| - 1];
    if |e| > 1 {
      var e1 := e[..|e| - 1];
      assert q[..|q| - 1] == p + e1;
      ExtOfDottedSuffix(p, e1);
      assert ExtLen(q[..|q| - 1]) == |e1|;
    }
    assert q[|q| - |e|..] == e;
  }
}
