/**
 * Splitting strings on separator characters and joining them back, as Go's
 * strings.Split, strings.Join and strings.FieldsFunc do.
 */
module Segments {

  predicate StartsWith(s: string, prefix: string)
  {
    |prefix| <= |s| && s[..|prefix|] == prefix
  }

  predicate EndsWith(s: string, suffix: string)
  {
    |suffix| <= |s| && s[|s| - |suffix|..] == suffix
  }

  /** No character of `s` is one of `seps`. */
  predicate NoneIn(s: string, seps: set<char>)
  {
    forall i :: 0 <= i < |s| ==> s[i] !in seps
  }

  /** Index of the first separator in `s`, or |s| when there is none. */
  function FirstSep(s: string, seps: set<char>): (k: nat)
    ensures k <= |s|
    ensures k < |s| ==> s[k] in seps
    ensures NoneIn(s[..k], seps)
  {
    if |s| == 0 || s[0] in seps then 0
    else
      var k' := FirstSep(s[1..], seps);
      assert s[..1 + k'] == [s[0]] + s[1..][..k'];
      1 + k'
  }

  /**
   * The pieces of `s` between separators: k separators give k + 1 pieces,
   * some of them possibly empty (strings.Split for one separator).
   */
  function Split(s: string, seps: set<char>): (r: seq<string>)
    ensures |r| >= 1
    ensures forall i :: 0 <= i < |r| ==> NoneIn(r[i], seps)
    decreases |s|
  {
    var k := FirstSep(s, seps);
    if k == |s| then [s]
    else [s[..k]] + Split(s[k + 1..], seps)
  }

  /** Pieces glued with `sep` between consecutive ones (strings.Join). */
  function Join(parts: seq<string>, sep: char): string
  {
    if |parts| == 0 then ""
    else if |parts| == 1 then parts[0]
    else parts[0] + [sep] + Join(parts[1..], sep)
  }

  /** The non-empty pieces, in order: strings.FieldsFunc with `seps` as the split test. */
  function Fields(s: string, seps: set<char>): seq<string>
  {
    NonEmpty(Split(s, seps))
  }

  function NonEmpty(parts: seq<string>): (r: seq<string>)
    ensures forall x :: x in r <==> x in parts && x != ""
  {
    if |parts| == 0 then []
    else if parts[0] == "" then NonEmpty(parts[1..])
    else [parts[0]] + NonEmpty(parts[1..])
  }

  /**
   * `x` occurs in `s` at index `i` as a whole piece: it is bounded on each
   * side by a separator or by an end of `s`.
   */
  predicate OccursAt(s: string, x: string, i: int, seps: set<char>)
  {
    && 0 <= i && i + |x| <= |s|
    && s[i..i + |x|] == x
    && (i == 0 || s[i - 1] in seps)
    && (i + |x| == |s| || s[i + |x|] in seps)
  }

  /** Splitting then joining with the same separator gives the string back. */
  lemma {:induction false} JoinSplit(s: string, sep: char)
    ensures Join(Split(s, {sep}), sep) == s
    decreases |s|
  {
    var k := FirstSep(s, {sep});
    if k < |s| {
      JoinSplit(s[k + 1..], sep);
      var rest := Split(s[k + 1..], {sep});
      assert Split(s, {sep}) == [s[..k]] + rest;
      assert s == s[..k] + [sep] + s[k + 1..];
    }
  }

  /** Joining separator-free pieces then splitting gives the pieces back. */
  lemma SplitJoin(parts: seq<string>, sep: char)
    requires |parts| >= 1
    requires forall i :: 0 <= i < |parts| ==> NoneIn(parts[i], {sep})
    ensures Split(Join(parts, sep), {sep}) == parts
  {
    SplitJoinIn(parts, {sep}, sep);
  }

  lemma {:induction false} SplitJoinIn(parts: seq<string>, seps: set<char>, sep: char)
    requires |parts| >= 1 && sep in seps
    requires forall i :: 0 <= i < |parts| ==> NoneIn(parts[i], seps)
    ensures Split(Join(parts, sep), seps) == parts
  {
    if |parts| > 1 {
      SplitJoinIn(parts[1..], seps, sep);
      var rest := Join(parts[1..], sep);
      var j := Join(parts, sep);
      assert j == parts[0] + [sep] + rest;
      FirstSepAfterFree(parts[0], rest, seps, sep);
      SliceAround(parts[0] + [sep], rest, sep, |parts[0]|);
      assert j[|parts[0]| + 1..] == rest;
      assert j[..|parts[0]|] == parts[0];
      SplitUnfold(j, seps, |parts[0]|);
      assert parts == [parts[0]] + parts[1..];
    } else {
      FirstSepOfFree(parts[0], seps);
    }
  }

  lemma FirstSepOfFree(s: string, seps: set<char>)
    requires NoneIn(s, seps)
    ensures FirstSep(s, seps) == |s|
  {
  }

  lemma {:induction false} FirstSepAfterFree(a: string, b: string, seps: set<char>, sep: char)
    requires sep in seps && NoneIn(a, seps)
    ensures FirstSep(a + [sep] + b, seps) == |a|
    decreases |a|
  {
    if |a| > 0 {
      assert (a + [sep] + b)[1..] == a[1..] + [sep] + b;
      FirstSepAfterFree(a[1..], b, seps, sep);
    }
  }

  lemma {:induction false} FirstSepInPrefix(a: string, c: string, seps: set<char>)
    requires FirstSep(a, seps) < |a|
    ensures FirstSep(a + c, seps) == FirstSep(a, seps)
    decreases |a|
  {
    if a[0] !in seps {
      assert (a + c)[1..] == a[1..] + c;
      FirstSepInPrefix(a[1..], c, seps);
    }
  }

  /** Splitting at a separator splits the two sides independently. */
  lemma SplitAppend(a: string, b: string, sep: char)
    ensures Split(a + [sep] + b, {sep}) == Split(a, {sep}) + Split(b, {sep})
  {
    SplitAppendIn(a, b, {sep}, sep);
  }

  lemma {:induction false} SplitAppendIn(a: string, b: string, seps: set<char>, sep: char)
    requires sep in seps
    ensures Split(a + [sep] + b, seps) == Split(a, seps) + Split(b, seps)
    decreases |a|
  {
    var k := FirstSep(a, seps);
    if k == |a| {
      SplitAppendFree(a, b, seps, sep);
    } else {
      SplitAppendIn(a[k + 1..], b, seps, sep);
      SplitAppendStep(a, b, seps, sep);
    }
  }

  lemma SplitAppendFree(a: string, b: string, seps: set<char>, sep: char)
    requires sep in seps && FirstSep(a, seps) == |a|
    ensures Split(a + [sep] + b, seps) == Split(a, seps) + Split(b, seps)
  {
    var s := a + [sep] + b;
    assert a[..|a|] == a;
    FirstSepAfterFree(a, b, seps, sep);
    assert s[..|a|] == a;
    assert s[|a| + 1..] == b;
  }

  lemma SplitAppendStep(a: string, b: string, seps: set<char>, sep: char)
    requires sep in seps && FirstSep(a, seps) < |a|
    requires var k := FirstSep(a, seps);
      Split(a[k + 1..] + [sep] + b, seps) == Split(a[k + 1..], seps) + Split(b, seps)
    ensures Split(a + [sep] + b, seps) == Split(a, seps) + Split(b, seps)
  {
    var k := FirstSep(a, seps);
    var s := a + [sep] + b;
    FirstSepAppendSep(a, b, seps, sep);
    SliceAround(a, b, sep, k);
    var head := a[..k];
    var left := Split(a[k + 1..], seps);
    var right := Split(b, seps);
    assert Split(s, seps) == [head] + (left + right) by {
      SplitUnfold(s, seps, k);
    }
    assert Split(a, seps) == [head] + left by {
      SplitUnfold(a, seps, k);
    }
    ConcatAssoc([head], left, right);
  }

  lemma ConcatAssoc<T>(a: seq<T>, b: seq<T>, c: seq<T>)
    ensures a + (b + c) == (a + b) + c
  {
  }

  lemma FirstSepAppendSep(a: string, b: string, seps: set<char>, sep: char)
    requires FirstSep(a, seps) < |a|
    ensures FirstSep(a + [sep] + b, seps) == FirstSep(a, seps)
  {
    assert a + [sep] + b == a + ([sep] + b);
    FirstSepInPrefix(a, [sep] + b, seps);
  }

  lemma SliceAround(a: string, b: string, sep: char, k: nat)
    requires k < |a|
    ensures (a + [sep] + b)[k + 1..] == a[k + 1..] + [sep] + b
    ensures (a + [sep] + b)[..k] == a[..k]
  {
  }

  lemma SplitUnfold(s: string, seps: set<char>, k: nat)
    requires k == FirstSep(s, seps) && k < |s|
    ensures Split(s, seps) == [s[..k]] + Split(s[k + 1..], seps)
  {
  }

  /** Joining two non-empty lists of pieces puts one separator between them. */
  lemma {:induction false} JoinAppend(a: seq<string>, b: seq<string>, sep: char)
    requires |a| >= 1 && |b| >= 1
    ensures Join(a + b, sep) == Join(a, sep) + [sep] + Join(b, sep)
  {
    if |a| > 1 {
      JoinAppend(a[1..], b, sep);
      assert (a + b)[1..] == a[1..] + b;
    } else {
      assert (a + b)[1..] == b;
    }
  }

  lemma OccursInFree(s: string, x: string, i: int, seps: set<char>)
    requires NoneIn(s, seps) && OccursAt(s, x, i, seps)
    ensures x == s
  {
  }

  lemma OccursAtFront(s: string, x: string, seps: set<char>)
    requires NoneIn(x, seps) && OccursAt(s, x, 0, seps)
    requires FirstSep(s, seps) < |s|
    ensures x == s[..FirstSep(s, seps)]
  {
    var k := FirstSep(s, seps);
    assert |x| == k;
  }

  lemma OccursShiftIn(s: string, x: string, j: int, k: nat, seps: set<char>)
    requires k < |s| && s[k] in seps
    requires OccursAt(s[k + 1..], x, j, seps)
    ensures OccursAt(s, x, j + k + 1, seps)
  {
    var t := s[k + 1..];
    assert s[j + k + 1..j + k + 1 + |x|] == t[j..j + |x|];
  }

  lemma OccursShiftOut(s: string, x: string, i: int, seps: set<char>)
    requires OccursAt(s, x, i, seps) && i > 0
    requires FirstSep(s, seps) < |s|
    ensures OccursAt(s[FirstSep(s, seps) + 1..], x, i - FirstSep(s, seps) - 1, seps)
  {
    var k := FirstSep(s, seps);
    assert i - 1 >= k;
    var t := s[k + 1..];
    var j := i - k - 1;
    assert t[j..j + |x|] == s[i..i + |x|];
  }

  /**
   * A separator-free `x` is one of the pieces of `s` exactly when it occurs in
   * `s` bounded by separators or the ends of `s`.
   */
  lemma {:induction false} SplitMembers(s: string, x: string, seps: set<char>)
    requires NoneIn(x, seps)
    ensures x in Split(s, seps) <==> exists i :: OccursAt(s, x, i, seps)
    decreases |s|
  {
    var k := FirstSep(s, seps);
    if k == |s| {
      SplitMembersFree(s, x, seps);
    } else {
      SplitMembers(s[k + 1..], x, seps);
      SplitMembersStep(s, x, seps);
    }
  }

  /** The base case of SplitMembers: a string without separators is its only piece. */
  lemma SplitMembersFree(s: string, x: string, seps: set<char>)
    requires NoneIn(x, seps) && FirstSep(s, seps) == |s|
    ensures x in Split(s, seps) <==> exists i :: OccursAt(s, x, i, seps)
  {
    assert Split(s, seps) == [s];
    if x == s {
      assert OccursAt(s, x, 0, seps);
    }
    forall i | OccursAt(s, x, i, seps) ensures x == s {
      assert s[..|s|] == s;
      OccursInFree(s, x, i, seps);
    }
  }

  /** The step of SplitMembers: the first piece, or a piece of what follows the first separator. */
  lemma SplitMembersStep(s: string, x: string, seps: set<char>)
    requires NoneIn(x, seps) && FirstSep(s, seps) < |s|
    requires var t := s[FirstSep(s, seps) + 1..];
      x in Split(t, seps) <==> exists j :: OccursAt(t, x, j, seps)
    ensures x in Split(s, seps) <==> exists i :: OccursAt(s, x, i, seps)
  {
    var k := FirstSep(s, seps);
    var t := s[k + 1..];
    SplitUnfold(s, seps, k);
    if x == s[..k] {
      assert OccursAt(s, x, 0, seps);
    }
    if x in Split(t, seps) {
      var j :| OccursAt(t, x, j, seps);
      OccursShiftIn(s, x, j, k, seps);
    }
    forall i | OccursAt(s, x, i, seps) ensures x in Split(s, seps) {
      if i == 0 {
        OccursAtFront(s, x, seps);
      } else {
        OccursShiftOut(s, x, i, seps);
      }
    }
  }

  /** A non-empty string is a field exactly when it is a piece. */
  lemma FieldsMembers(s: string, x: string, seps: set<char>)
    requires x != ""
    ensures x in Fields(s, seps) <==> x in Split(s, seps)
  {
  }
}
