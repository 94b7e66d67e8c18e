/**
 * The puzzle record `NYTBeePuzzle`: a puzzle's date, center letter, other
 * letters and official solutions. The constructor sorts the other letters
 * into one string and checks the query as the solvers do before it stores
 * anything; the fields are never assigned again.
 */
module PuzzlesUtils {
  import opened Outcomes
  import opened Seqs
  import opened QueryValidator

  /** A calendar date; only its equality matters here. */
  datatype Date = Date(year: int, month: int, day: int)

  /** Every character of the string is at most every later one. */
  predicate LettersSorted(s: string) {
    forall i, j | 0 <= i < j < |s| :: s[i] <= s[j]
  }

  /** A character at most every character of a sorted string, put in front of it, keeps it sorted. */
  lemma LettersSortedCons(c: char, s: string)
    requires LettersSorted(s) && forall k | 0 <= k < |s| :: c <= s[k]
    ensures LettersSorted([c] + s)
  {
    forall i, j | 0 <= i < j < |[c] + s| ensures ([c] + s)[i] <= ([c] + s)[j] {
      assert ([c] + s)[j] == s[j - 1];
      if i > 0 {
        assert ([c] + s)[i] == s[i - 1];
      }
    }
  }

  /** A bound on `c` and on every character of `u` bounds every character of a permutation of `u + [c]`. */
  lemma BoundPermutation(y: char, c: char, u: string, t: string)
    requires multiset(t) == multiset(u) + multiset{c}
    requires y <= c && forall k | 0 <= k < |u| :: y <= u[k]
    ensures forall k | 0 <= k < |t| :: y <= t[k]
  {
    forall k | 0 <= k < |t| ensures y <= t[k] {
      assert t[k] in multiset(t);
      if t[k] != c {
        assert t[k] in multiset(u);
        var m :| 0 <= m < |u| && u[m] == t[k];
      }
    }
  }

  /** One insertion step: `c` placed into a sorted string. */
  function InsertLetter(c: char, s: string): (r: string)
    requires LettersSorted(s)
    ensures LettersSorted(r)
    ensures multiset(r) == multiset(s) + multiset{c}
    decreases |s|
  {
    if s == [] || c <= s[0] then
      LettersSortedCons(c, s);
      [c] + s
    else
      var t := InsertLetter(c, s[1..]);
      BoundPermutation(s[0], c, s[1..], t);
      LettersSortedCons(s[0], t);
      assert s == [s[0]] + s[1..];
      [s[0]] + t
  }

  /** `''.join(sorted(others))`: the same characters, in order. */
  function SortedLetters(others: string): (r: string)
    ensures LettersSorted(r)
    ensures multiset(r) == multiset(others)
  {
    if others == [] then []
    else
      assert others == [others[0]] + others[1..];
      InsertLetter(others[0], SortedLetters(others[1..]))
  }

  /** A sorted string is determined by the characters it holds. */
  lemma {:induction false} SortedLettersUnique(a: string, b: string)
    requires LettersSorted(a) && LettersSorted(b) && multiset(a) == multiset(b)
    ensures a == b
    decreases |a|
  {
    assert |a| == |multiset(a)| == |b|;
    if a != [] {
      SameHead(a, b, (x: char, y: char) => x <= y);
      SameTail(a, b);
      SortedLettersUnique(a[1..], b[1..]);
      assert a == [a[0]] + a[1..] && b == [b[0]] + b[1..];
    }
  }

  /** Two orderings of the same letters are stored as the same string. */
  lemma SortedLettersOfPermutation(a: string, b: string)
    requires multiset(a) == multiset(b)
    ensures SortedLetters(a) == SortedLetters(b)
  {
    SortedLettersUnique(SortedLetters(a), SortedLetters(b));
  }

  /**
   * The query check does not depend on the order of the other letters: it
   * gives the same verdict on the sorted string as on the letters supplied.
   */
  lemma ValidatePermutation(center: string, a: string, b: string)
    requires multiset(a) == multiset(b)
    ensures Validate(center, a) == Validate(center, b)
  {
    if Distinct(a) {
      DistinctPermutation(a, b);
    }
    if Distinct(b) {
      DistinctPermutation(b, a);
    }
    assert |a| == |multiset(a)| == |b|;
    if |center| == 1 {
      assert center[0] in a <==> center[0] in multiset(a);
      assert center[0] in b <==> center[0] in multiset(b);
    }
  }

  class NYTBeePuzzle {
    const puzzleDate: Date
    const center: string
    const others: string
    const solutions: set<string>

    /** The field assignments of `__init__`, once the check has passed. */
    constructor (puzzleDate: Date, center: string, others: string, solutions: set<string>)
      ensures this.puzzleDate == puzzleDate && this.center == center
      ensures this.others == others && this.solutions == solutions
    {
      this.puzzleDate := puzzleDate;
      this.center := center;
      this.others := others;
      this.solutions := solutions;
    }

    function GetCenter(): string {
      center
    }

    function GetOthers(): string {
      others
    }

    /** A copy of the solutions: a set value, which the caller cannot change in the puzzle. */
    function GetSolutions(): set<string> {
      solutions
    }

    function GetPuzzleDate(): Date {
      puzzleDate
    }

    /** `__eq__` against another puzzle: center, others, solutions and date all equal. */
    predicate Equals(other: NYTBeePuzzle) {
      center == other.GetCenter() && others == other.GetOthers() &&
      solutions == other.GetSolutions() && puzzleDate == other.GetPuzzleDate()
    }
  }

  /**
   * `NYTBeePuzzle(puzzle_date, center, others, solutions)`: the other
   * letters are sorted into one string and checked with the center; a
   * rejected query raises before any field is assigned, and otherwise the
   * getters return the date and center as given, the sorted letters and
   * the set of the solutions.
   */
  method NewPuzzle(puzzleDate: Date, center: string, others: string, solutions: seq<string>)
    returns (r: Result<NYTBeePuzzle>)
    ensures r.Failure? <==> Validate(center, others) != Pass
    ensures r.Failure? ==> Fail(r.error) == Validate(center, others)
    ensures r.Success? ==>
      r.value.GetPuzzleDate() == puzzleDate && r.value.GetCenter() == center &&
      r.value.GetOthers() == SortedLetters(others) && LettersSorted(r.value.GetOthers()) &&
      multiset(r.value.GetOthers()) == multiset(others) &&
      (forall s :: s in r.value.GetSolutions() <==> s in solutions)
  {
    var sortedOthers := SortedLetters(others);
    ValidatePermutation(center, sortedOthers, others);
    match Validate(center, sortedOthers)
    case Fail(e) =>
      return Failure(e);
    case Pass =>
      var puzzle := new NYTBeePuzzle(puzzleDate, center, sortedOthers, set s | s in solutions);
      return Success(puzzle);
  }

  /**
   * Two puzzles built from the same date, center and solutions and from
   * two orderings of the same other letters are equal.
   */
  lemma PermutedPuzzlesEqual(p: NYTBeePuzzle, q: NYTBeePuzzle, othersP: string, othersQ: string)
    requires p.GetOthers() == SortedLetters(othersP) && q.GetOthers() == SortedLetters(othersQ)
    requires multiset(othersP) == multiset(othersQ)
    requires p.GetCenter() == q.GetCenter() && p.GetPuzzleDate() == q.GetPuzzleDate()
    requires p.GetSolutions() == q.GetSolutions()
    ensures p.Equals(q) && q.Equals(p)
  {
    SortedLettersOfPermutation(othersP, othersQ);
  }
}
