/**
 * The reference solver `get_bee_solutions_naive`: scan the dictionary and keep
 * every word that holds the center letter and uses no letter outside the
 * center and the six others.
 */
module NaiveSolver {
  import opened Outcomes
  import opened Alphabet
  import opened Seqs
  import opened QueryValidator

  /** The Spelling Bee membership rule: `center in word and set(word) <= set(others + center)`. */
  predicate IsBeeWord(center: char, others: string, word: string) {
    center in word && LetterSet(word) <= LetterSet(others) + {center}
  }

  function BeeTest(center: char, others: string): string -> bool {
    word => IsBeeWord(center, others, word)
  }

  /** What the naive solver returns for a query: the validator's error, or the filtered dictionary. */
  function NaiveSolution(center: string, others: string, dictionary: seq<string>): Result<seq<string>> {
    match Validate(center, others)
    case Fail(e) => Failure(e)
    case Pass => Success(Filter(dictionary, BeeTest(center[0], others)))
  }

  method SolveNaive(center: string, others: string, dictionary: seq<string>) returns (r: Result<seq<string>>)
    ensures r == NaiveSolution(center, others, dictionary)
  {
    var check := Validate(center, others);
    if check.Fail? {
      return Failure(check.error);
    }
    var c := center[0];
    var validBeeWords: seq<string> := [];
    var letterSet := LetterSet(others + center);
    assert letterSet == LetterSet(others) + {c};
    var i := 0;
    while i < |dictionary|
      invariant 0 <= i <= |dictionary|
      invariant validBeeWords == Filter(dictionary[..i], BeeTest(c, others))
    {
      var word := dictionary[i];
      assert dictionary[..i + 1] == dictionary[..i] + [word];
      if c in word {
        if LetterSet(word) <= letterSet {
          validBeeWords := validBeeWords + [word];
        }
      }
      i := i + 1;
    }
    assert dictionary[..i] == dictionary;
    return Success(validBeeWords);
  }

  /**
   * The oracle's guarantee: on a valid query the result is the subsequence of
   * the dictionary made of exactly the words satisfying the membership rule,
   * each kept as many times as the dictionary holds it.
   */
  lemma NaiveOracle(center: string, others: string, dictionary: seq<string>)
    requires Validate(center, others) == Pass
    ensures NaiveSolution(center, others, dictionary).Success?
    ensures IsSubsequence(NaiveSolution(center, others, dictionary).value, dictionary)
    ensures forall w :: w in NaiveSolution(center, others, dictionary).value <==>
      w in dictionary && center[0] in w && LetterSet(w) <= LetterSet(others) + {center[0]}
    ensures forall w ::
              multiset(NaiveSolution(center, others, dictionary).value)[w] ==
              if IsBeeWord(center[0], others, w) then multiset(dictionary)[w] else 0
  {
    var p := BeeTest(center[0], others);
    FilterIsSubsequence(dictionary, p);
    forall w ensures multiset(Filter(dictionary, p))[w] == if IsBeeWord(center[0], others, w) then multiset(dictionary)[w] else 0 {
      FilterCount(dictionary, p, w);
    }
  }

  /** The queries center `t` with others `orabyz`, and center `b` with others `oratyz`, are valid. */
  lemma ScenarioQueriesValid()
    ensures Validate("t", "orabyz") == Pass
    ensures Validate("b", "oratyz") == Pass
  {
  }

  /** A three-letter word of letters from the query, one of them the center. */
  lemma ThreeLetterBeeWord(center: char, others: string, w: string)
    requires |w| == 3 && center in w
    requires forall i | 0 <= i < 3 :: w[i] == center || w[i] in others
    ensures IsBeeWord(center, others, w)
  {
    forall x | x in LetterSet(w) ensures x in LetterSet(others) + {center} {
      assert x == w[0] || x == w[1] || x == w[2];
    }
  }

  /**
   * The dictionary [rot, rob, rat, art, tar, too] with center `t` and others
   * `orabyz`: "rob" is rejected because it has no `t`, every other word is
   * accepted.
   */
  lemma NaiveScenarioCenterT(d: seq<string>)
    requires d == ["rot", "rob", "rat", "art", "tar", "too"]
    ensures var r := NaiveSolution("t", "orabyz", d);
      r.Success? && forall w :: w in r.value <==> w in d && w != "rob"
  {
    ScenarioQueriesValid();
    var p := BeeTest('t', "orabyz");
    assert NaiveSolution("t", "orabyz", d) == Success(Filter(d, p));
    ThreeLetterBeeWord('t', "orabyz", "rot");
    ThreeLetterBeeWord('t', "orabyz", "rat");
    ThreeLetterBeeWord('t', "orabyz", "art");
    ThreeLetterBeeWord('t', "orabyz", "tar");
    ThreeLetterBeeWord('t', "orabyz", "too");
    assert 't' !in "rob";
    forall w | w in d
      ensures p(w) <==> w != "rob"
    {
      assert w == "rot" || w == "rob" || w == "rat" || w == "art" || w == "tar" || w == "too";
    }
  }

  /** The dictionary [rot, rob, rat, art, tar, too] with center `b` and others `oratyz`: only "rob" is accepted. */
  lemma NaiveScenarioCenterB(d: seq<string>)
    requires d == ["rot", "rob", "rat", "art", "tar", "too"]
    ensures var r := NaiveSolution("b", "oratyz", d);
      r.Success? && forall w :: w in r.value <==> w == "rob"
  {
    ScenarioQueriesValid();
    var p := BeeTest('b', "oratyz");
    assert NaiveSolution("b", "oratyz", d) == Success(Filter(d, p));
    ThreeLetterBeeWord('b', "oratyz", "rob");
    assert 'b' !in "rot" && 'b' !in "rat" && 'b' !in "art" && 'b' !in "tar" && 'b' !in "too";
    forall w | w in d
      ensures p(w) <==> w == "rob"
    {
      assert w == "rot" || w == "rob" || w == "rat" || w == "art" || w == "tar" || w == "too";
    }
    assert "rob" in d;
  }
}
