/** The 26-letter alphabet `string.ascii_lowercase` and letter sets of strings. */
module Alphabet {

  /** Membership in `string.ascii_lowercase`. */
  predicate IsLower(c: char) {
    'a' <= c <= 'z'
  }

  predicate AllLower(s: string) {
    forall i | 0 <= i < |s| :: IsLower(s[i])
  }

  /** Every word of a word list is made of lowercase letters only. */
  predicate AllWordsLower(words: seq<string>) {
    forall i | 0 <= i < |words| :: AllLower(words[i])
  }

  lemma LowerWordOf(words: seq<string>, w: string)
    requires AllWordsLower(words) && w in words
    ensures AllLower(w)
  {
    var k :| 0 <= k < |words| && words[k] == w;
  }

  /** `string.ascii_lowercase.index(c)`. */
  function Index(c: char): (i: nat)
    requires IsLower(c)
    ensures i < 26 && Letter(i) == c
  {
    c as int - 'a' as int
  }

  /** `string.ascii_lowercase[i]`. */
  function Letter(i: nat): (c: char)
    requires i < 26
    ensures IsLower(c)
  {
    ('a' as int + i) as char
  }

  lemma LetterInjective(i: nat, j: nat)
    requires i < 26 && j < 26
    ensures Letter(i) == Letter(j) <==> i == j
  {
  }

  /** Python's `set(s)` for a string `s`. */
  function LetterSet(s: string): set<char> {
    set c | c in s
  }

  /** The 26 lowercase letters as a set: `set(string.ascii_lowercase)`. */
  function AllLetters(): (r: set<char>)
    ensures forall c :: c in r <==> IsLower(c)
  {
    var r := set i | 0 <= i < 26 :: Letter(i);
    assert forall c | IsLower(c) :: Letter(Index(c)) in r;
    r
  }
}
