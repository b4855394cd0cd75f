/**
 * The traversal test applied to the client-chosen upload directory
 * (containsDotDot, trans.go:265-278): fields are split on both slash and
 * backslash, and a field equal to `..` rejects the request.
 */
module DotDot {
  import opened Segments

  /** isSlashRune (trans.go:265) */
  const SlashRunes: set<char> := {'/', '\\'}

  /** strings.Contains(v, "..") */
  predicate HasDoubleDot(v: string)
  {
    exists i | 0 <= i < |v| - 1 :: v[i] == '.' && v[i + 1] == '.'
  }

  /** containsDotDot: the cheap substring test first, then the field scan. */
  predicate ContainsDotDot(v: string)
  {
    if !HasDoubleDot(v) then false
    else ".." in Fields(v, SlashRunes)
  }

  lemma DotDotIsFree()
    ensures NoneIn("..", SlashRunes)
  {
  }

  /** The early `Contains` exit never changes the answer of the field scan. */
  lemma EarlyExitIrrelevant(v: string)
    ensures ContainsDotDot(v) == (".." in Fields(v, SlashRunes))
  {
    DotDotIsFree();
    FieldsMembers(v, "..", SlashRunes);
    SplitMembers(v, "..", SlashRunes);
    if ".." in Fields(v, SlashRunes) {
      var i :| OccursAt(v, "..", i, SlashRunes);
      assert v[i..i + 2] == "..";
      assert v[i] == '.' && v[i + 1] == '.';
    }
  }

  /**
   * containsDotDot(v) holds exactly when `..` stands in `v` as a whole field,
   * bounded on each side by a slash, a backslash or an end of `v`.
   */
  lemma ContainsDotDotIff(v: string)
    ensures ContainsDotDot(v) <==> exists i :: OccursAt(v, "..", i, SlashRunes)
  {
    EarlyExitIrrelevant(v);
    DotDotIsFree();
    FieldsMembers(v, "..", SlashRunes);
    SplitMembers(v, "..", SlashRunes);
  }

  /** A string that passes the check has no `..` element when split on slashes alone. */
  lemma PassedHasNoParentElement(v: string)
    requires !ContainsDotDot(v)
    ensures ".." !in Split(v, {'/'})
  {
    ContainsDotDotIff(v);
    assert NoneIn("..", {'/'});
    SplitMembers(v, "..", {'/'});
    forall i | OccursAt(v, "..", i, {'/'})
      ensures OccursAt(v, "..", i, SlashRunes)
    {
    }
  }
}
