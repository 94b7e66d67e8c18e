/**
 * The word-list maintenance of the custom dictionary: the three filters that
 * drop words no puzzle can have, the pipeline `write_words_to_dictionary`
 * runs before writing (deduplicate, filter, sort, lowercase), and the set
 * union and difference of adding and deleting words. The file that is read
 * becomes a parameter (`existing`, its lines) and the file that is written
 * becomes the result (its lines, without the `'\n'` each one ends with).
 * The two copies of these functions in the repository are identical.
 */
module DictionaryUtils {
  import opened Alphabet
  import opened Seqs
  import opened StringOrder
  import opened QueryValidator

  /** `len(set(w))`: the number of different characters of a word. */
  function DistinctLetterCount(w: string): nat {
    |LetterSet(w)|
  }

  /** A word all three filters keep: 4 to 19 characters, at most 7 of them different. */
  predicate Admissible(w: string) {
    |w| > 3 && |w| < 20 && DistinctLetterCount(w) <= 7
  }

  /** `_remove_small_words`: the words longer than three characters, in input order. */
  function RemoveSmallWords(dictionary: seq<string>): (r: seq<string>)
    ensures IsSubsequence(r, dictionary)
    ensures forall w :: multiset(r)[w] == if |w| > 3 then multiset(dictionary)[w] else 0
  {
    var keep := (w: string) => |w| > 3;
    FilterKeeps(dictionary, keep);
    Filter(dictionary, keep)
  }

  /** `_remove_long_words`: the words shorter than twenty characters, in input order. */
  function RemoveLongWords(dictionary: seq<string>): (r: seq<string>)
    ensures IsSubsequence(r, dictionary)
    ensures forall w :: multiset(r)[w] == if |w| < 20 then multiset(dictionary)[w] else 0
  {
    var keep := (w: string) => |w| < 20;
    FilterKeeps(dictionary, keep);
    Filter(dictionary, keep)
  }

  /** `_remove_impossible_words`: the words with at most seven different characters, in input order. */
  function RemoveImpossibleWords(dictionary: seq<string>): (r: seq<string>)
    ensures IsSubsequence(r, dictionary)
    ensures forall w :: multiset(r)[w] == if DistinctLetterCount(w) <= 7 then multiset(dictionary)[w] else 0
  {
    var keep := (w: string) => DistinctLetterCount(w) <= 7;
    FilterKeeps(dictionary, keep);
    Filter(dictionary, keep)
  }

  /** The three filters in the order the pipeline applies them. */
  function Filtered(words: seq<string>): (r: seq<string>)
    ensures IsSubsequence(r, words)
    ensures forall w :: multiset(r)[w] == if Admissible(w) then multiset(words)[w] else 0
  {
    var small := RemoveSmallWords(words);
    var long := RemoveLongWords(small);
    var r := RemoveImpossibleWords(long);
    SubsequenceTransitive(long, small, words);
    SubsequenceTransitive(r, long, words);
    r
  }

  /** Python's `c.lower()` on the ASCII letters; other characters are kept. */
  function LowerChar(c: char): char {
    if 'A' <= c <= 'Z' then (c as int + 32) as char else c
  }

  /** `w.lower()`. */
  function Lower(w: string): string {
    if w == [] then [] else [LowerChar(w[0])] + Lower(w[1..])
  }

  /** Every word of a list lowercased. */
  function LowerEach(words: seq<string>): seq<string> {
    if words == [] then [] else [Lower(words[0])] + LowerEach(words[1..])
  }

  /** Lowercasing leaves a lowercase word as it is. */
  lemma {:induction false} LowerOfLowercase(w: string)
    requires AllLower(w)
    ensures Lower(w) == w
  {
    if w != [] {
      assert IsLower(w[0]);
      assert AllLower(w[1..]) by {
        forall i | 0 <= i < |w[1..]| ensures IsLower(w[1..][i]) {
          assert w[1..][i] == w[i + 1];
        }
      }
      LowerOfLowercase(w[1..]);
      assert w == [w[0]] + w[1..];
    }
  }

  /** Lowercasing leaves a list of lowercase words as it is. */
  lemma {:induction false} LowerEachOfLowercase(words: seq<string>)
    requires AllWordsLower(words)
    ensures LowerEach(words) == words
  {
    if words != [] {
      LowerOfLowercase(words[0]);
      assert AllWordsLower(words[1..]) by {
        forall i | 0 <= i < |words[1..]| ensures AllLower(words[1..][i]) {
          assert words[1..][i] == words[i + 1];
        }
      }
      LowerEachOfLowercase(words[1..]);
      assert words == [words[0]] + words[1..];
    }
  }

  /** `set(word_list)`. */
  function SetOf(words: seq<string>): set<string> {
    set w | w in words
  }

  /**
   * The words `write_words_to_dictionary` keeps from a list or set whose
   * distinct words are `words`, in the order it writes them:
   * `list(set(word_list))`, the three filters, then `sorted`.
   */
  ghost function KeptWords(words: set<string>): seq<string> {
    Sorted(Filtered(SeqOfSet(words)))
  }

  /** The lines `write_words_to_dictionary` writes: the kept words, each lowercased. */
  ghost function WrittenLines(words: set<string>): seq<string> {
    LowerEach(KeptWords(words))
  }

  /** `write_words_to_dictionary(word_list, path)`: the lines written to `path`. */
  ghost function DictionaryLines(wordList: seq<string>): seq<string> {
    WrittenLines(SetOf(wordList))
  }

  /** `add_words_to_custom(new_words)` with the custom dictionary's lines `existing`: the lines written back. */
  ghost function AddWordsToCustom(existing: seq<string>, newWords: seq<string>): seq<string> {
    WrittenLines(SetOf(existing) + SetOf(newWords))
  }

  /** `delete_words_from_custom(delete_list)` with the custom dictionary's lines `existing`: the lines written back. */
  ghost function DeleteWordsFromCustom(existing: seq<string>, deleteList: seq<string>): seq<string> {
    WrittenLines(SetOf(existing) - SetOf(deleteList))
  }

  /**
   * The kept words are sorted, each occurs once, and they are exactly the
   * admissible words of the set: deduplication comes before the filters.
   */
  lemma KeptWordsSpec(words: set<string>)
    ensures IsSorted(KeptWords(words)) && Distinct(KeptWords(words))
    ensures forall w :: w in KeptWords(words) <==> w in words && Admissible(w)
  {
    var listed := SeqOfSet(words);
    var filtered := Filtered(listed);
    forall w ensures multiset(filtered)[w] <= 1 {
      DistinctCount(listed, w);
    }
    CountDistinct(filtered);
    DistinctPermutation(filtered, KeptWords(words));
    forall w ensures w in KeptWords(words) <==> w in words && Admissible(w) {
      assert w in KeptWords(words) <==> w in multiset(filtered);
      assert w in listed <==> w in multiset(listed);
    }
  }

  /**
   * The written lines do not depend on the order in which the set of words
   * is listed: any listing without repeats gives the same kept words.
   */
  lemma KeptWordsAnyOrder(a: seq<string>, b: seq<string>)
    requires Distinct(a) && Distinct(b) && SetOf(a) == SetOf(b)
    ensures Sorted(Filtered(a)) == Sorted(Filtered(b))
  {
    SameMultiset(a, b);
    FilteredPermutation(a, b);
    SortedUnique(Sorted(Filtered(a)), Sorted(Filtered(b)));
  }

  /** The filters keep the same words, as often, from two permutations of one list. */
  lemma FilteredPermutation(a: seq<string>, b: seq<string>)
    requires multiset(a) == multiset(b)
    ensures multiset(Filtered(a)) == multiset(Filtered(b))
  {
    forall w ensures multiset(Filtered(a))[w] == multiset(Filtered(b))[w] {
    }
  }

  /** Two lists without repeats holding the same words are permutations of each other. */
  lemma SameMultiset(a: seq<string>, b: seq<string>)
    requires Distinct(a) && Distinct(b) && SetOf(a) == SetOf(b)
    ensures multiset(a) == multiset(b)
  {
    forall w ensures multiset(a)[w] == multiset(b)[w] {
      SameCount(a, b, w);
    }
  }

  /** Two lists without repeats and with the same words hold each word equally often. */
  lemma SameCount(a: seq<string>, b: seq<string>, w: string)
    requires Distinct(a) && Distinct(b) && SetOf(a) == SetOf(b)
    ensures multiset(a)[w] == multiset(b)[w]
  {
    DistinctCount(a, w);
    DistinctCount(b, w);
    assert w in a <==> w in SetOf(a);
    assert w in b <==> w in SetOf(b);
  }

  /** For lowercase words the written lines are the kept words themselves. */
  lemma WrittenLinesOfLowercase(words: set<string>)
    requires forall w | w in words :: AllLower(w)
    ensures WrittenLines(words) == KeptWords(words)
  {
    KeptWordsSpec(words);
    assert AllWordsLower(KeptWords(words)) by {
      forall i | 0 <= i < |KeptWords(words)| ensures AllLower(KeptWords(words)[i]) {
        assert KeptWords(words)[i] in KeptWords(words);
      }
    }
    LowerEachOfLowercase(KeptWords(words));
  }

  /**
   * On a lowercase word list the pipeline writes each admissible word of the
   * list exactly once, in sorted order: every line has 4 to 19 letters and
   * at most 7 different ones.
   */
  lemma DictionaryLinesSpec(wordList: seq<string>)
    requires AllWordsLower(wordList)
    ensures IsSorted(DictionaryLines(wordList)) && Distinct(DictionaryLines(wordList))
    ensures forall w :: w in DictionaryLines(wordList) <==> w in wordList && Admissible(w)
  {
    forall w | w in SetOf(wordList) ensures AllLower(w) {
      LowerWordOf(wordList, w);
    }
    WrittenLinesOfLowercase(SetOf(wordList));
    KeptWordsSpec(SetOf(wordList));
  }

  /** Adding lowercase words writes the admissible words of the union, sorted and once each. */
  lemma AddWordsSpec(existing: seq<string>, newWords: seq<string>)
    requires AllWordsLower(existing) && AllWordsLower(newWords)
    ensures IsSorted(AddWordsToCustom(existing, newWords)) && Distinct(AddWordsToCustom(existing, newWords))
    ensures forall w :: w in AddWordsToCustom(existing, newWords) <==>
      (w in existing || w in newWords) && Admissible(w)
  {
    var union := SetOf(existing) + SetOf(newWords);
    forall w | w in union ensures AllLower(w) {
      if w in existing {
        LowerWordOf(existing, w);
      } else {
        LowerWordOf(newWords, w);
      }
    }
    WrittenLinesOfLowercase(union);
    KeptWordsSpec(union);
  }

  /** Deleting words from a lowercase dictionary writes its admissible words not deleted, sorted and once each. */
  lemma DeleteWordsSpec(existing: seq<string>, deleteList: seq<string>)
    requires AllWordsLower(existing)
    ensures IsSorted(DeleteWordsFromCustom(existing, deleteList)) && Distinct(DeleteWordsFromCustom(existing, deleteList))
    ensures forall w :: w in DeleteWordsFromCustom(existing, deleteList) <==>
      w in existing && w !in deleteList && Admissible(w)
  {
    var rest := SetOf(existing) - SetOf(deleteList);
    forall w | w in rest ensures AllLower(w) {
      LowerWordOf(existing, w);
    }
    WrittenLinesOfLowercase(rest);
    KeptWordsSpec(rest);
  }

  /** Deleting words the dictionary does not hold is no error and writes the dictionary back unchanged. */
  lemma DeleteAbsentWords(existing: seq<string>, deleteList: seq<string>)
    requires forall w | w in deleteList :: w !in existing
    ensures DeleteWordsFromCustom(existing, deleteList) == DictionaryLines(existing)
  {
    assert SetOf(existing) - SetOf(deleteList) == SetOf(existing);
  }

  /** Adding words the dictionary already holds writes the dictionary back unchanged. */
  lemma AddPresentWords(existing: seq<string>, newWords: seq<string>)
    requires forall w | w in newWords :: w in existing
    ensures AddWordsToCustom(existing, newWords) == DictionaryLines(existing)
  {
    assert SetOf(existing) + SetOf(newWords) == SetOf(existing);
  }

  /**
   * The kept words of a two-word set, when both words are admissible and
   * `first` sorts before `second`.
   */
  lemma {:induction false} KeptPair(first: string, second: string)
    requires first != second && Admissible(first) && Admissible(second) && Below(first, second)
    ensures KeptWords({first, second}) == [first, second]
  {
    var listed := SeqOfSet({first, second});
    assert SetOf(listed) == {first, second} == SetOf([first, second]);
    KeptWordsAnyOrder(listed, [first, second]);
    SortedPair(first, second);
  }

  lemma {:induction false} SortedPair(first: string, second: string)
    requires first != second && Admissible(first) && Admissible(second) && Below(first, second)
    ensures Sorted(Filtered([first, second])) == [first, second]
  {
    PairKept(first, second);
    PairSorted(first, second);
    SortedUnique(Sorted(Filtered([first, second])), [first, second]);
  }

  lemma PairSorted(first: string, second: string)
    requires Below(first, second)
    ensures IsSorted([first, second])
  {
    forall i, j | 0 <= i < j < 2 ensures Below([first, second][i], [first, second][j]) {
      assert i == 0 && j == 1;
    }
  }

  lemma {:induction false} PairKept(first: string, second: string)
    requires Admissible(first) && Admissible(second)
    ensures multiset(Filtered([first, second])) == multiset([first, second])
  {
    var pair := [first, second];
    forall w ensures multiset(Filtered(pair))[w] == multiset(pair)[w] {
      if w != first && w != second {
        assert w !in multiset(pair);
      }
    }
  }

  /** A word of 4 to 7 characters passes all three filters: it cannot hold more than 7 different ones. */
  lemma ShortWordAdmissible(w: string)
    requires 3 < |w| <= 7
    ensures Admissible(w)
  {
    DistinctIffNoCollapse(w);
  }

  /**
   * As written, the pipeline sorts before it lowercases: a word list holding
   * a word in two cases writes the same line twice.
   */
  lemma MixedCaseDuplicateLines()
    ensures DictionaryLines(["Bead", "bead"]) == ["bead", "bead"]
    ensures !Distinct(DictionaryLines(["Bead", "bead"]))
  {
    BeadLines();
    var lines := DictionaryLines(["Bead", "bead"]);
    assert lines[0] == lines[1];
  }

  lemma BeadLines()
    ensures DictionaryLines(["Bead", "bead"]) == ["bead", "bead"]
  {
    ShortWordAdmissible("Bead");
    ShortWordAdmissible("bead");
    assert SetOf(["Bead", "bead"]) == {"Bead", "bead"};
    KeptPair("Bead", "bead");
    LowerBead();
  }

  lemma LowerBead()
    ensures LowerEach(["Bead", "bead"]) == ["bead", "bead"]
  {
    assert "d"[1..] == "" && Lower("d") == "d";
    assert "ad"[1..] == "d" && Lower("ad") == "ad";
    assert "ead"[1..] == "ad" && Lower("ead") == "ead";
    assert "bead"[1..] == "ead" && Lower("bead") == "bead";
    assert "Bead"[1..] == "ead" && LowerChar('B') == 'b' && Lower("Bead") == "bead";
    assert ["bead"][1..] == [] && LowerEach(["bead"]) == ["bead"];
    assert ["Bead", "bead"][1..] == ["bead"];
  }

  lemma LowerZeal()
    ensures LowerEach(["Zeal", "able"]) == ["zeal", "able"]
  {
    assert "l"[1..] == "" && Lower("l") == "l";
    assert "al"[1..] == "l" && Lower("al") == "al";
    assert "eal"[1..] == "al" && Lower("eal") == "eal";
    assert "Zeal"[1..] == "eal" && LowerChar('Z') == 'z' && Lower("Zeal") == "zeal";
    assert "e"[1..] == "" && Lower("e") == "e";
    assert "le"[1..] == "e" && Lower("le") == "le";
    assert "ble"[1..] == "le" && Lower("ble") == "ble";
    assert "able"[1..] == "ble" && Lower("able") == "able";
    assert ["able"][1..] == [] && LowerEach(["able"]) == ["able"];
    assert ["Zeal", "able"][1..] == ["able"];
  }

  /**
   * As written, an uppercase initial sorts before every lowercase one: the
   * lines of a mixed-case word list need not be in sorted order.
   */
  lemma MixedCaseUnsortedLines()
    ensures DictionaryLines(["able", "Zeal"]) == ["zeal", "able"]
    ensures !IsSorted(DictionaryLines(["able", "Zeal"]))
  {
    ZealLines();
    ZealAbleUnsorted();
  }

  lemma ZealAbleUnsorted()
    ensures !IsSorted(["zeal", "able"])
  {
    assert "zeal"[0] == 'z' && "able"[0] == 'a';
    assert !Below(["zeal", "able"][0], ["zeal", "able"][1]);
  }

  lemma ZealLines()
    ensures DictionaryLines(["able", "Zeal"]) == ["zeal", "able"]
  {
    ShortWordAdmissible("Zeal");
    ShortWordAdmissible("able");
    assert SetOf(["able", "Zeal"]) == {"Zeal", "able"};
    KeptPair("Zeal", "able");
    LowerZeal();
  }

  /**
   * The pipeline as its description promises ("lowercase words in sorted
   * order"): lowercase first, then deduplicate, filter and sort.
   */
  ghost function LoweredLines(wordList: seq<string>): seq<string> {
    KeptWords(SetOf(LowerEach(wordList)))
  }

  /** The corrected pipeline writes each admissible lowercased word once, in sorted order, whatever the case of the input. */
  lemma LoweredLinesSpec(wordList: seq<string>)
    ensures IsSorted(LoweredLines(wordList)) && Distinct(LoweredLines(wordList))
    ensures forall w :: w in LoweredLines(wordList) <==> w in LowerEach(wordList) && Admissible(w)
  {
    KeptWordsSpec(SetOf(LowerEach(wordList)));
  }

  /** On lowercase input the corrected pipeline writes what the source writes. */
  lemma LoweredLinesAgree(wordList: seq<string>)
    requires AllWordsLower(wordList)
    ensures LoweredLines(wordList) == DictionaryLines(wordList)
  {
    LowerEachOfLowercase(wordList);
    forall w | w in SetOf(wordList) ensures AllLower(w) {
      LowerWordOf(wordList, w);
    }
    WrittenLinesOfLowercase(SetOf(wordList));
  }
}
