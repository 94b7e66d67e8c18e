/**
 * Python's ordering of `str` values and the `sorted` built-in on a list of
 * strings: strings compare code point by code point, and a proper prefix
 * comes first.
 */
module StringOrder {
  import opened Seqs

  /** Python's `a <= b` on strings. */
  predicate Below(a: string, b: string)
    decreases |a|
  {
    a == [] || (b != [] && (a[0] < b[0] || (a[0] == b[0] && Below(a[1..], b[1..]))))
  }

  /** Any two strings are comparable. */
  lemma {:induction false} BelowTotal(a: string, b: string)
    ensures Below(a, b) || Below(b, a)
    decreases |a|
  {
    if a != [] && b != [] && a[0] == b[0] {
      BelowTotal(a[1..], b[1..]);
    }
  }

  /** Two strings each at most the other are equal. */
  lemma {:induction false} BelowAntisymmetric(a: string, b: string)
    requires Below(a, b) && Below(b, a)
    ensures a == b
    decreases |a|
  {
    if a != [] {
      BelowAntisymmetric(a[1..], b[1..]);
      assert a == [a[0]] + a[1..] && b == [b[0]] + b[1..];
    }
  }

  lemma {:induction false} BelowTransitive(a: string, b: string, c: string)
    requires Below(a, b) && Below(b, c)
    ensures Below(a, c)
    decreases |a|
  {
    if a != [] && a[0] == b[0] && b[0] == c[0] {
      BelowTransitive(a[1..], b[1..], c[1..]);
    }
  }

  /** Every string of the list is at most every later one. */
  predicate IsSorted(s: seq<string>) {
    forall i, j | 0 <= i < j < |s| :: Below(s[i], s[j])
  }

  /** A string at most every element of a sorted list, put in front of it, keeps it sorted. */
  lemma SortedCons(x: string, s: seq<string>)
    requires IsSorted(s) && forall y | y in s :: Below(x, y)
    ensures IsSorted([x] + s)
  {
    forall i, j | 0 <= i < j < |[x] + s| ensures Below(([x] + s)[i], ([x] + s)[j]) {
      if i == 0 {
        assert ([x] + s)[j] == s[j - 1];
      } else {
        assert ([x] + s)[i] == s[i - 1] && ([x] + s)[j] == s[j - 1];
      }
    }
  }

  /** A string at most the head of a sorted list is at most all of it. */
  lemma BelowHead(x: string, s: seq<string>)
    requires IsSorted(s) && (s != [] ==> Below(x, s[0]))
    ensures forall y | y in s :: Below(x, y)
  {
    forall y | y in s ensures Below(x, y) {
      if y != s[0] {
        BelowTransitive(x, s[0], y);
      }
    }
  }

  /** A bound on `x` and on every element of `u` bounds every element of a permutation of `u + [x]`. */
  lemma BelowPermutation(y: string, x: string, u: seq<string>, t: seq<string>)
    requires multiset(t) == multiset(u) + multiset{x}
    requires Below(y, x) && forall z | z in u :: Below(y, z)
    ensures forall z | z in t :: Below(y, z)
  {
    forall z | z in t ensures Below(y, z) {
      assert z in multiset(t);
    }
  }

  /** One insertion step of the sort: `x` placed into a sorted list. */
  function InsertSorted(x: string, s: seq<string>): (r: seq<string>)
    requires IsSorted(s)
    ensures IsSorted(r)
    ensures multiset(r) == multiset(s) + multiset{x}
    decreases |s|
  {
    if s == [] || Below(x, s[0]) then
      BelowHead(x, s);
      SortedCons(x, s);
      [x] + s
    else
      BelowTotal(x, s[0]);
      var t := InsertSorted(x, s[1..]);
      BelowPermutation(s[0], x, s[1..], t);
      SortedCons(s[0], t);
      assert s == [s[0]] + s[1..];
      [s[0]] + t
  }

  /** `sorted(words)`: the same strings, in order. */
  function Sorted(words: seq<string>): (r: seq<string>)
    ensures IsSorted(r)
    ensures multiset(r) == multiset(words)
  {
    if words == [] then []
    else
      assert words == [words[0]] + words[1..];
      InsertSorted(words[0], Sorted(words[1..]))
  }

  /** A sorted list is determined by the strings it holds. */
  lemma {:induction false} SortedUnique(a: seq<string>, b: seq<string>)
    requires IsSorted(a) && IsSorted(b) && multiset(a) == multiset(b)
    ensures a == b
    decreases |a|
  {
    assert |a| == |multiset(a)| == |b|;
    if a != [] {
      forall x, y | Below(x, y) && Below(y, x) ensures x == y {
        BelowAntisymmetric(x, y);
      }
      SameHead(a, b, (x, y) => Below(x, y));
      SameTail(a, b);
      SortedUnique(a[1..], b[1..]);
      assert a == [a[0]] + a[1..] && b == [b[0]] + b[1..];
    }
  }
}
