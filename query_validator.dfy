/**
 * The shared query check `validate_character_args(center, others)`: it raises
 * a ValueError in four cases, tested in a fixed order, and otherwise returns
 * without effect.
 */
module QueryValidator {
  import opened Outcomes
  import opened Alphabet
  import opened Seqs

  /**
   * The four checks in source order. `len(set(others))` is the number of
   * distinct characters; with `len(center) == 1` established, `center in
   * others` is membership of that one character.
   */
  function Validate(center: string, others: string): (r: Outcome)
    ensures r == Pass <==>
      Distinct(others) && |others| == 6 && |center| == 1 && center[0] !in others
    ensures r == Fail(RepeatedOthers) <==> !Distinct(others)
    ensures r == Fail(WrongOtherCount) <==> Distinct(others) && |others| != 6
    ensures r == Fail(WrongCenterLength) <==>
      Distinct(others) && |others| == 6 && |center| != 1
    ensures r == Fail(CenterInOthers) <==>
      Distinct(others) && |others| == 6 && |center| == 1 && center[0] in others
  {
    DistinctIffNoCollapse(others);
    if |others| > |LetterSet(others)| then Fail(RepeatedOthers)
    else if |LetterSet(others)| != 6 then Fail(WrongOtherCount)
    else if |center| != 1 then Fail(WrongCenterLength)
    else if center[0] in others then Fail(CenterInOthers)
    else Pass
  }

  /** `len(set(s)) <= len(s)`, with equality exactly when `s` repeats no character. */
  lemma {:induction false} DistinctIffNoCollapse(s: string)
    ensures |LetterSet(s)| <= |s|
    ensures |LetterSet(s)| == |s| <==> Distinct(s)
  {
    if s != [] {
      var init, last := s[..|s| - 1], s[|s| - 1];
      DistinctIffNoCollapse(init);
      assert s == init + [last];
      assert LetterSet(s) == LetterSet(init) + {last};
      if last in init {
        var i :| 0 <= i < |init| && init[i] == last;
        assert s[i] == s[|s| - 1];
        assert LetterSet(s) == LetterSet(init);
      } else {
        assert last !in LetterSet(init);
        assert Distinct(s) <==> Distinct(init);
      }
    }
  }

  /** One query for each rejection, with its error, and one query that passes. */
  lemma RejectedQueries()
    ensures Validate("a", "abcdef") == Fail(CenterInOthers)
    ensures Validate("a", "bc") == Fail(WrongOtherCount)
    ensures Validate("ab", "cdefgh") == Fail(WrongCenterLength)
    ensures Validate("a", "bbcdef") == Fail(RepeatedOthers)
    ensures Validate("t", "orabyz") == Pass
  {
    assert "bbcdef"[0] == "bbcdef"[1];
  }
}
