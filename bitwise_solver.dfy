/**
 * The bitwise solver: `preprocess_get_bit_to_word_dict` groups the dictionary
 * by the 26-bit letter-set key of each word, and `get_bee_solutions_bitwise`
 * keeps every bucket whose key passes the truth-table formula.
 */
module BitwiseSolver {
  import opened Outcomes
  import opened Alphabet
  import opened Seqs
  import opened QueryValidator
  import opened NaiveSolver
  import opened BitMasks

  /**
   * A Python `dict[int, list[str]]`: its keys in insertion order, and the
   * list each key maps to.
   */
  datatype BitDict = BitDict(keys: seq<nat>, buckets: map<nat, seq<string>>)

  /** The keys listed are exactly the keys mapped, each listed once. */
  predicate WellFormed(d: BitDict) {
    Distinct(d.keys) &&
    (forall k | k in d.keys :: k in d.buckets) &&
    (forall k | k in d.buckets :: k in d.keys)
  }

  /** The words whose key is `k`. */
  function HasKey(k: nat): string -> bool {
    word => Key(word) == k
  }

  /** `bit_dict[k].append(word)` when `k` is present, `bit_dict[k] = [word]` otherwise. */
  function AddWord(d: BitDict, k: nat, word: string): BitDict {
    if k in d.buckets then BitDict(d.keys, d.buckets[k := d.buckets[k] + [word]])
    else BitDict(d.keys + [k], d.buckets[k := [word]])
  }

  /** The dictionary built from a list of lowercase words, one word at a time. */
  function BitDictOf(words: seq<string>): BitDict {
    if |words| == 0 then BitDict([], map[])
    else AddWord(BitDictOf(words[..|words| - 1]), Key(words[|words| - 1]), words[|words| - 1])
  }

  /** The preprocessor builds a well-formed dictionary. */
  lemma {:induction false} BitDictOfWellFormed(words: seq<string>)
    ensures WellFormed(BitDictOf(words))
  {
    if |words| > 0 {
      var prev, w := BitDictOf(words[..|words| - 1]), words[|words| - 1];
      BitDictOfWellFormed(words[..|words| - 1]);
      assert Key(w) !in prev.buckets ==> Key(w) !in prev.keys;
    }
  }

  /** What the preprocessor returns: the bit dictionary, or the `ValueError` of a non-lowercase letter. */
  function Preprocessed(dictionary: seq<string>): Result<BitDict> {
    if AllWordsLower(dictionary) then Success(BitDictOf(dictionary)) else Failure(NotALowercaseLetter)
  }

  /** Every word of the list has its key in the bit dictionary. */
  lemma {:induction false} BitDictOfCovers(words: seq<string>)
    ensures forall w | w in words :: Key(w) in BitDictOf(words).buckets
  {
    if |words| > 0 {
      var init, last := words[..|words| - 1], words[|words| - 1];
      BitDictOfCovers(init);
      forall w | w in words
        ensures Key(w) in BitDictOf(words).buckets
      {
        if w != last {
          assert w in init by {
            assert words == init + [last];
          }
        }
      }
    }
  }

  /**
   * The bit dictionary groups the words by key: the bucket of a key holds the
   * words with that key, in dictionary order, repeats included.
   */
  lemma {:induction false} BitDictOfBuckets(words: seq<string>)
    ensures forall k | k in BitDictOf(words).buckets ::
              BitDictOf(words).buckets[k] == Filter(words, HasKey(k))
  {
    if |words| > 0 {
      var init, last := words[..|words| - 1], words[|words| - 1];
      BitDictOfBuckets(init);
      assert words == init + [last];
      forall k | k in BitDictOf(words).buckets
        ensures BitDictOf(words).buckets[k] == Filter(words, HasKey(k))
      {
        BucketStep(init, last, k);
      }
    }
  }

  lemma BucketStep(init: seq<string>, last: string, k: nat)
    requires forall k | k in BitDictOf(init).buckets :: BitDictOf(init).buckets[k] == Filter(init, HasKey(k))
    requires k in BitDictOf(init + [last]).buckets
    ensures BitDictOf(init + [last]).buckets[k] == Filter(init + [last], HasKey(k))
  {
    var words := init + [last];
    assert words[..|words| - 1] == init;
    FilterSnoc(init, last, HasKey(k));
    if k !in BitDictOf(init).buckets {
      BitDictOfCovers(init);
      FilterNone(init, HasKey(k));
    }
  }

  /** Every bucket holds at least one word. */
  lemma {:induction false} BucketsNonEmpty(words: seq<string>, k: nat)
    requires k in BitDictOf(words).buckets
    ensures |BitDictOf(words).buckets[k]| > 0
  {
    var init := words[..|words| - 1];
    if k in BitDictOf(init).buckets {
      BucketsNonEmpty(init, k);
    }
  }

  /** The 26-digit list with a `1` on each letter of `letters`. */
  function Marked(letters: set<char>): string {
    LetterDigits(c => c in letters)
  }

  lemma MarkLetter(done: set<char>, c: char)
    requires IsLower(c)
    ensures Marked(done)[Index(c) := '1'] == Marked(done + {c})
  {
    forall i | 0 <= i < 26
      ensures Letter(i) == c <==> i == Index(c)
    {
      LetterInjective(i, Index(c));
    }
  }

  lemma MarkedWord(word: string)
    ensures Marked({}) == seq(26, _ => '0')
    ensures Marked(LetterSet(word)) == WordDigits(word)
  {
  }

  /** `int(''.join(word_bits), 2)` after marking each letter of `set(word)`, or the `ValueError` of `index`. */
  method WordBits(word: string) returns (r: Result<nat>)
    ensures r.Success? <==> AllLower(word)
    ensures r.Success? ==> r.value == Key(word)
    ensures r.Failure? ==> r.error == NotALowercaseLetter
  {
    var bits: string := seq(26, _ => '0');
    var letters := LetterSet(word);
    ghost var done: set<char> := {};
    MarkedWord(word);
    while letters != {}
      invariant letters + done == LetterSet(word) && letters !! done
      invariant forall c | c in done :: IsLower(c)
      invariant bits == Marked(done)
      decreases |letters|
    {
      var c :| c in letters;
      if !IsLower(c) {
        assert c in word;
        return Failure(NotALowercaseLetter);
      }
      MarkLetter(done, c);
      bits := bits[Index(c) := '1'];
      letters := letters - {c};
      done := done + {c};
    }
    assert AllLower(word) by {
      forall i | 0 <= i < |word|
        ensures IsLower(word[i])
      {
        assert word[i] in done;
      }
    }
    return Success(FromBinary(bits));
  }

  lemma PrefixStep(dictionary: seq<string>, i: nat)
    requires i < |dictionary|
    ensures BitDictOf(dictionary[..i + 1]) == AddWord(BitDictOf(dictionary[..i]), Key(dictionary[i]), dictionary[i])
  {
    assert dictionary[..i + 1][..i] == dictionary[..i];
  }

  /** `preprocess_get_bit_to_word_dict`. */
  method PreprocessBitToWordDict(dictionary: seq<string>) returns (r: Result<BitDict>)
    ensures r == Preprocessed(dictionary)
  {
    var bitDict := BitDict([], map[]);
    var i := 0;
    while i < |dictionary|
      invariant 0 <= i <= |dictionary|
      invariant forall j | 0 <= j < i :: AllLower(dictionary[j])
      invariant bitDict == BitDictOf(dictionary[..i])
    {
      var word := dictionary[i];
      var wordBits := WordBits(word);
      if wordBits.Failure? {
        assert !AllWordsLower(dictionary) by {
          assert !AllLower(dictionary[i]);
        }
        return Failure(wordBits.error);
      }
      var k := wordBits.value;
      ghost var next := AddWord(bitDict, k, word);
      if k in bitDict.buckets {
        bitDict := bitDict.(buckets := bitDict.buckets[k := bitDict.buckets[k] + [word]]);
      } else {
        bitDict := BitDict(bitDict.keys + [k], bitDict.buckets[k := [word]]);
      }
      assert bitDict == next;
      PrefixStep(dictionary, i);
      assert bitDict == BitDictOf(dictionary[..i + 1]);
      i := i + 1;
    }
    assert dictionary[..i] == dictionary;
    return Success(bitDict);
  }

  /** The buckets of the keys in `ks` that `keep` accepts, concatenated in the order of `ks`. */
  function Gather(d: BitDict, ks: seq<nat>, keep: nat -> bool): seq<string> {
    if |ks| == 0 then []
    else
      var k := ks[|ks| - 1];
      Gather(d, ks[..|ks| - 1], keep) + (if k in d.buckets && keep(k) then d.buckets[k] else [])
  }

  /** The key test of the solver: the formula is zero for a valid word. */
  function ValidKey(center: char, others: string): nat -> bool
    requires IsLower(center)
  {
    (k: nat) => Invalid(k, CenterBits(center), OtherBitsNegated(others)) == 0
  }

  /** What `get_bee_solutions_bitwise` returns for a query and a bit dictionary. */
  function BitwiseSolution(center: string, others: string, d: BitDict): Result<seq<string>> {
    match Validate(center, others)
    case Fail(e) => Failure(e)
    case Pass =>
      if !IsLower(center[0]) then Failure(NotALowercaseLetter)
      else Success(Gather(d, d.keys, ValidKey(center[0], others)))
  }

  /** `get_bee_solutions_bitwise`. */
  method SolveBitwise(center: string, others: string, d: BitDict) returns (r: Result<seq<string>>)
    requires WellFormed(d)
    ensures r == BitwiseSolution(center, others, d)
  {
    var check := Validate(center, others);
    if check.Fail? {
      return Failure(check.error);
    }
    var c := center[0];
    if !IsLower(c) {
      return Failure(NotALowercaseLetter);
    }
    var centerBits := CenterBits(c);
    var otherBitsNegated := OtherBitsNegated(others);
    var validBeeWords: seq<string> := [];
    var i := 0;
    while i < |d.keys|
      invariant 0 <= i <= |d.keys|
      invariant validBeeWords == Gather(d, d.keys[..i], ValidKey(c, others))
    {
      var wordBits := d.keys[i];
      var result := Invalid(wordBits, centerBits, otherBitsNegated);
      assert d.keys[..i + 1][..i] == d.keys[..i];
      if result == 0 {
        validBeeWords := validBeeWords + d.buckets[wordBits];
      }
      i := i + 1;
    }
    assert d.keys[..i] == d.keys;
    return Success(validBeeWords);
  }

  /** One letter of the formula for a word: set iff the letter is outside the others and word and center disagree on it. */
  lemma InvalidLetter(center: char, others: string, word: string, i: nat)
    requires IsLower(center) && i < 26
    ensures TestBit(Invalid(Key(word), CenterBits(center), OtherBitsNegated(others)), 25 - i) <==>
      Letter(i) !in others && ((Letter(i) in word) != (Letter(i) == center))
  {
    KeyBit(word, i);
    CenterBitsBit(center, i);
    InvalidBit(Key(word), CenterBits(center), OtherBitsNegated(others), 25 - i);
    OtherBitsNegatedBit(others, i);
  }

  /** A Spelling Bee word leaves every letter's bit of the formula clear. */
  lemma BeeWordLetterClear(center: char, others: string, word: string, i: nat)
    requires IsLower(center) && IsBeeWord(center, others, word) && i < 26
    ensures !TestBit(Invalid(Key(word), CenterBits(center), OtherBitsNegated(others)), 25 - i)
  {
    InvalidLetter(center, others, word, i);
    if Letter(i) in word {
      assert Letter(i) in LetterSet(word);
    }
  }

  /** A Spelling Bee word passes the key test. */
  lemma BeeWordKeyValid(center: char, others: string, word: string)
    requires IsLower(center) && IsBeeWord(center, others, word)
    ensures ValidKey(center, others)(Key(word))
  {
    var inv := Invalid(Key(word), CenterBits(center), OtherBitsNegated(others));
    forall k: nat | k < 26
      ensures !TestBit(inv, k)
    {
      BeeWordLetterClear(center, others, word, 25 - k);
    }
    OtherBitsNegatedBit(others, 0);
    ZeroIffNoBits(inv);
  }

  /** A lowercase word that passes the key test is a Spelling Bee word. */
  lemma KeyValidBeeWord(center: char, others: string, word: string)
    requires IsLower(center) && center !in others && AllLower(word)
    requires ValidKey(center, others)(Key(word))
    ensures IsBeeWord(center, others, word)
  {
    var inv := Invalid(Key(word), CenterBits(center), OtherBitsNegated(others));
    ZeroHasNoBits(25 - Index(center));
    InvalidLetter(center, others, word, Index(center));
    forall x | x in LetterSet(word)
      ensures x in LetterSet(others) + {center}
    {
      ZeroHasNoBits(25 - Index(x));
      InvalidLetter(center, others, word, Index(x));
    }
  }

  /**
   * The truth table is right: for a lowercase word and a valid query, the
   * formula is zero exactly when the word is a Spelling Bee word.
   */
  lemma KeyValidIffBeeWord(center: char, others: string, word: string)
    requires IsLower(center) && center !in others && AllLower(word)
    ensures ValidKey(center, others)(Key(word)) <==> IsBeeWord(center, others, word)
  {
    if IsBeeWord(center, others, word) {
      BeeWordKeyValid(center, others, word);
    }
    if ValidKey(center, others)(Key(word)) {
      KeyValidBeeWord(center, others, word);
    }
  }

  lemma {:induction false} GatherCount(d: BitDict, words: seq<string>, ks: seq<nat>, keep: nat -> bool, w: string)
    requires Distinct(ks)
    requires forall k | k in ks :: k in d.buckets && d.buckets[k] == Filter(words, HasKey(k))
    ensures multiset(Gather(d, ks, keep))[w] ==
            if Key(w) in ks && keep(Key(w)) then multiset(words)[w] else 0
  {
    if |ks| > 0 {
      var init, k := ks[..|ks| - 1], ks[|ks| - 1];
      assert ks == init + [k];
      assert Distinct(init) && k !in init;
      GatherCount(d, words, init, keep, w);
      FilterCount(words, HasKey(k), w);
    }
  }

  /**
   * The buckets partition the word list: taken together, in key order, they
   * hold every word of the list as often as the list does, so their sizes
   * add up to the length of the list.
   */
  lemma BucketsPartition(words: seq<string>)
    ensures var d := BitDictOf(words);
      multiset(Gather(d, d.keys, _ => true)) == multiset(words) &&
      |Gather(d, d.keys, _ => true)| == |words|
  {
    var d := BitDictOf(words);
    var all: nat -> bool := _ => true;
    BitDictOfWellFormed(words);
    BitDictOfBuckets(words);
    BitDictOfCovers(words);
    forall w
      ensures multiset(Gather(d, d.keys, all))[w] == multiset(words)[w]
    {
      GatherCount(d, words, d.keys, all, w);
    }
    assert multiset(Gather(d, d.keys, all)) == multiset(words);
    assert |multiset(Gather(d, d.keys, all))| == |multiset(words)|;
  }

  /**
   * The bitwise solver agrees with the naive one: on a lowercase dictionary
   * and a valid query with a lowercase center, both return the same words the
   * same number of times (in bucket order rather than dictionary order).
   */
  lemma BitwiseMatchesNaive(center: string, others: string, dictionary: seq<string>)
    requires AllWordsLower(dictionary)
    requires Validate(center, others) == Pass && IsLower(center[0])
    ensures var d := BitDictOf(dictionary);
      WellFormed(d) &&
      BitwiseSolution(center, others, d).Success? &&
      multiset(BitwiseSolution(center, others, d).value) ==
      multiset(NaiveSolution(center, others, dictionary).value)
  {
    var d := BitDictOf(dictionary);
    var c := center[0];
    BitDictOfWellFormed(dictionary);
    BitDictOfBuckets(dictionary);
    BitDictOfCovers(dictionary);
    NaiveOracle(center, others, dictionary);
    var keep := ValidKey(c, others);
    var got := Gather(d, d.keys, keep);
    var want := NaiveSolution(center, others, dictionary).value;
    forall w
      ensures multiset(got)[w] == multiset(want)[w]
    {
      GatherCount(d, dictionary, d.keys, keep, w);
      if w in dictionary {
        var i :| 0 <= i < |dictionary| && dictionary[i] == w;
        assert AllLower(dictionary[i]);
        KeyValidIffBeeWord(c, others, w);
      }
    }
    assert multiset(got) == multiset(want);
  }

  /**
   * The remaining cases: an invalid query fails in both solvers with the same
   * error; a lowercase dictionary with a non-lowercase center makes the
   * bitwise solver raise where the naive one returns no words.
   */
  lemma BitwiseOtherCases(center: string, others: string, dictionary: seq<string>)
    ensures Validate(center, others).Fail? ==>
      BitwiseSolution(center, others, BitDictOf(dictionary)) == NaiveSolution(center, others, dictionary) ==
      Failure(Validate(center, others).error)
    ensures AllWordsLower(dictionary) && Validate(center, others) == Pass && !IsLower(center[0]) ==>
      BitwiseSolution(center, others, BitDictOf(dictionary)) == Failure(NotALowercaseLetter) &&
      NaiveSolution(center, others, dictionary) == Success([])
  {
    if AllWordsLower(dictionary) && Validate(center, others) == Pass && !IsLower(center[0]) {
      forall w | w in dictionary
        ensures !IsBeeWord(center[0], others, w)
      {
        var i :| 0 <= i < |dictionary| && dictionary[i] == w;
        assert AllLower(dictionary[i]);
      }
      FilterNone(dictionary, BeeTest(center[0], others));
    }
  }
}
