/**
 * The integer arithmetic of the bitwise solver. The source works on Python
 * integers, which are unbounded, so a mask is a `nat` here and the bitwise
 * operators it uses (`&`, `|`, `~x & not_mask`, `int(s, 2)`) are defined on
 * `nat` bit by bit. `TestBit(x, k)` reads bit `k` of `x`, counting from the
 * least significant bit.
 *
 * A word's mask is built from a list of 26 '0'/'1' characters, one per letter
 * of `string.ascii_lowercase`, parsed as a base-2 numeral; so the letter with
 * index `i` (`a` is 0) sits at bit `25 - i`.
 */
module BitMasks {
  import opened Alphabet

  /** `not_mask = 67108863`, twenty-six one bits. */
  const NotMask: nat := 67108863

  /** Bit `k` of `x`. */
  predicate TestBit(x: nat, k: nat)
    decreases k
  {
    if k == 0 then x % 2 == 1 else TestBit(x / 2, k - 1)
  }

  /** The integer of `n` one bits, `2^n - 1`. */
  function AllOnes(n: nat): nat {
    if n == 0 then 0 else 2 * AllOnes(n - 1) + 1
  }

  lemma NotMaskIsAllOnes()
    ensures AllOnes(26) == NotMask
  {
    assert AllOnes(6) == 63;
    assert AllOnes(12) == 4095;
    assert AllOnes(18) == 262143;
    assert AllOnes(24) == 16777215;
  }

  /** Python's `a & b` on non-negative integers. */
  function And(a: nat, b: nat): (r: nat)
    ensures r <= a && r <= b
    decreases a
  {
    if a == 0 || b == 0 then 0
    else 2 * And(a / 2, b / 2) + (if a % 2 == 1 && b % 2 == 1 then 1 else 0)
  }

  /** Python's `a | b` on non-negative integers. */
  function Or(a: nat, b: nat): nat
    decreases a
  {
    if a == 0 then b
    else if b == 0 then a
    else 2 * Or(a / 2, b / 2) + (if a % 2 == 1 || b % 2 == 1 then 1 else 0)
  }

  /**
   * Python's `~x & not_mask` for `x >= 0`: `~x` is `-x - 1`, whose low 26
   * bits in two's complement are those of `not_mask - x % 2^26`.
   */
  function NotMasked(x: nat): (r: nat)
    ensures r <= NotMask
  {
    NotMask - x % (NotMask + 1)
  }

  lemma {:induction false} ZeroHasNoBits(k: nat)
    ensures !TestBit(0, k)
  {
    if k > 0 {
      ZeroHasNoBits(k - 1);
    }
  }

  /** An integer `2 * h + d` with `d` a binary digit has `d` as its low bit and `h` above it. */
  lemma Halves(x: nat, h: nat, d: nat, k: nat)
    requires x == 2 * h + d && d < 2
    ensures TestBit(x, 0) <==> d == 1
    ensures k > 0 ==> (TestBit(x, k) <==> TestBit(h, k - 1))
  {
    assert x / 2 == h && x % 2 == d;
  }

  /** Bit `k` of `a & b` is set iff it is set in both. */
  lemma {:induction false} AndBit(a: nat, b: nat, k: nat)
    ensures TestBit(And(a, b), k) <==> TestBit(a, k) && TestBit(b, k)
    decreases a
  {
    if a == 0 || b == 0 {
      ZeroHasNoBits(k);
    } else {
      var h, d := And(a / 2, b / 2), if a % 2 == 1 && b % 2 == 1 then 1 else 0;
      Halves(And(a, b), h, d, k);
      Halves(a, a / 2, a % 2, k);
      Halves(b, b / 2, b % 2, k);
      if k > 0 {
        AndBit(a / 2, b / 2, k - 1);
      }
    }
  }

  /** Bit `k` of `a | b` is set iff it is set in either. */
  lemma {:induction false} OrBit(a: nat, b: nat, k: nat)
    ensures TestBit(Or(a, b), k) <==> TestBit(a, k) || TestBit(b, k)
    decreases a
  {
    if a == 0 || b == 0 {
      ZeroHasNoBits(k);
    } else {
      var h, d := Or(a / 2, b / 2), if a % 2 == 1 || b % 2 == 1 then 1 else 0;
      Halves(Or(a, b), h, d, k);
      Halves(a, a / 2, a % 2, k);
      Halves(b, b / 2, b % 2, k);
      if k > 0 {
        OrBit(a / 2, b / 2, k - 1);
      }
    }
  }

  /** Below bit `n`, subtracting from `2^n - 1` flips every bit. */
  lemma {:induction false} ComplementBit(x: nat, n: nat, k: nat)
    requires x <= AllOnes(n) && k < n
    ensures TestBit(AllOnes(n) - x, k) <==> !TestBit(x, k)
    decreases n
  {
    var h := AllOnes(n - 1) - x / 2;
    Halves(AllOnes(n) - x, h, 1 - x % 2, k);
    Halves(x, x / 2, x % 2, k);
    if k > 0 {
      ComplementBit(x / 2, n - 1, k - 1);
    }
  }

  /** On the 26 letter bits, `~x & not_mask` flips each bit of a 26-bit `x`. */
  lemma NotMaskedBit(x: nat, k: nat)
    requires x <= NotMask && k < 26
    ensures TestBit(NotMasked(x), k) <==> !TestBit(x, k)
  {
    NotMaskIsAllOnes();
    assert x % (NotMask + 1) == x;
    ComplementBit(x, 26, k);
  }

  /** A positive integer below `2^n` has a set bit below `n`. */
  lemma {:induction false} SomeBit(x: nat, n: nat) returns (k: nat)
    requires 0 < x <= AllOnes(n)
    ensures k < n && TestBit(x, k)
    decreases n
  {
    Halves(x, x / 2, x % 2, 0);
    if x % 2 == 1 {
      k := 0;
    } else {
      var j := SomeBit(x / 2, n - 1);
      k := j + 1;
      Halves(x, x / 2, x % 2, k);
    }
  }

  /** A 26-bit integer is zero exactly when none of its 26 bits is set. */
  lemma ZeroIffNoBits(x: nat)
    requires x <= NotMask
    ensures x == 0 ==> forall k: nat | k < 26 :: !TestBit(x, k)
    ensures (forall k: nat | k < 26 :: !TestBit(x, k)) ==> x == 0
  {
    if x == 0 {
      forall k: nat | k < 26
        ensures !TestBit(x, k)
      {
        ZeroHasNoBits(k);
      }
    } else {
      NotMaskIsAllOnes();
      var k := SomeBit(x, 26);
    }
  }

  /** `int(s, 2)` for a string of binary digits. */
  function FromBinary(s: string): nat
    requires forall i | 0 <= i < |s| :: s[i] == '0' || s[i] == '1'
  {
    if |s| == 0 then 0
    else 2 * FromBinary(s[..|s| - 1]) + (if s[|s| - 1] == '1' then 1 else 0)
  }

  /** Bit `k` of `int(s, 2)` is the `k`-th digit of `s` from the right. */
  lemma {:induction false} FromBinaryBit(s: string, k: nat)
    requires forall i | 0 <= i < |s| :: s[i] == '0' || s[i] == '1'
    requires k < |s|
    ensures TestBit(FromBinary(s), k) <==> s[|s| - 1 - k] == '1'
  {
    var init := s[..|s| - 1];
    Halves(FromBinary(s), FromBinary(init), if s[|s| - 1] == '1' then 1 else 0, k);
    if k > 0 {
      FromBinaryBit(init, k - 1);
    }
  }

  /** `int(s, 2)` has no more bits than `s` has digits. */
  lemma {:induction false} FromBinaryBound(s: string)
    requires forall i | 0 <= i < |s| :: s[i] == '0' || s[i] == '1'
    ensures FromBinary(s) <= AllOnes(|s|)
  {
    if |s| > 0 {
      FromBinaryBound(s[..|s| - 1]);
    }
  }

  /** A list of 26 binary digits, one per letter, the `1`s on the letters `p` selects. */
  function LetterDigits(p: char -> bool): (s: string)
    ensures |s| == 26
    ensures forall i | 0 <= i < 26 :: s[i] == (if p(Letter(i)) then '1' else '0')
  {
    seq(26, i requires 0 <= i < 26 => if p(Letter(i)) then '1' else '0')
  }

  /** The integer of a 26-digit letter list, and the bit each letter lands on. */
  lemma LetterDigitsBits(p: char -> bool, i: nat)
    requires i < 26
    ensures FromBinary(LetterDigits(p)) <= NotMask
    ensures TestBit(FromBinary(LetterDigits(p)), 25 - i) <==> p(Letter(i))
  {
    FromBinaryBound(LetterDigits(p));
    NotMaskIsAllOnes();
    FromBinaryBit(LetterDigits(p), 25 - i);
  }

  /** The bit list of a word (`word_bits` before `int(…, 2)`): a `1` on each letter of the word. */
  function WordDigits(word: string): string {
    LetterDigits(c => c in word)
  }

  /** A word's key in the bit dictionary. */
  function Key(word: string): nat {
    FromBinary(WordDigits(word))
  }

  /** The letter with index `i` is set in a word's key iff it occurs in the word. */
  lemma KeyBit(word: string, i: nat)
    requires i < 26
    ensures Key(word) <= NotMask
    ensures TestBit(Key(word), 25 - i) <==> Letter(i) in word
  {
    LetterDigitsBits(c => c in word, i);
  }

  /** `center_bits`: a single `1`, on the center letter. */
  function CenterBits(center: char): nat
    requires IsLower(center)
  {
    FromBinary(LetterDigits(c => c == center))
  }

  lemma CenterBitsBit(center: char, i: nat)
    requires IsLower(center) && i < 26
    ensures CenterBits(center) <= NotMask
    ensures TestBit(CenterBits(center), 25 - i) <==> Letter(i) == center
  {
    LetterDigitsBits(c => c == center, i);
  }

  /** `other_bits_negated`: a `1` on each letter that is NOT among the others. */
  function OtherBitsNegated(others: string): nat {
    FromBinary(LetterDigits(c => c !in others))
  }

  lemma OtherBitsNegatedBit(others: string, i: nat)
    requires i < 26
    ensures OtherBitsNegated(others) <= NotMask
    ensures TestBit(OtherBitsNegated(others), 25 - i) <==> Letter(i) !in others
  {
    LetterDigitsBits(c => c !in others, i);
  }

  /**
   * `result`, the sum-of-products formula `~O & ((~W & C) | (W & ~C))` read
   * off the truth table, with each complement cut to 26 bits by `not_mask`.
   */
  function Invalid(wordBits: nat, centerBits: nat, otherBitsNegated: nat): (r: nat)
    ensures r <= otherBitsNegated
  {
    var wordBitsNegated := NotMasked(wordBits);
    var centerBitsNegated := NotMasked(centerBits);
    And(otherBitsNegated, Or(And(wordBitsNegated, centerBits), And(wordBits, centerBitsNegated)))
  }

  /**
   * The truth table, bit by bit: a letter's bit of the formula is set exactly
   * when the letter is outside the others and the word and the center
   * disagree on it.
   */
  lemma InvalidBit(w: nat, c: nat, o: nat, k: nat)
    requires w <= NotMask && c <= NotMask && k < 26
    ensures TestBit(Invalid(w, c, o), k) <==> TestBit(o, k) && (TestBit(w, k) != TestBit(c, k))
  {
    var wn, cn := NotMasked(w), NotMasked(c);
    NotMaskedBit(w, k);
    NotMaskedBit(c, k);
    AndBit(wn, c, k);
    AndBit(w, cn, k);
    OrBit(And(wn, c), And(w, cn), k);
    AndBit(o, Or(And(wn, c), And(w, cn)), k);
  }
}
