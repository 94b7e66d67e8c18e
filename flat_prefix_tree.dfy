/**
 * The flat prefix tree: `preprocess_get_prefix_tree` maps every non-empty
 * prefix of a dictionary word to the set of characters that follow it in
 * some word, `'$'` marking a word's end, and overwrites the root `''` with
 * the 26 letters. `_traverse_prefix_tree` walks it depth first from the
 * root, entering only the query's letters and emitting each prefix that ends
 * a word and holds the center letter.
 *
 * A traversal returns a Python list whose order follows set iteration, so
 * it is modelled as a multiset: the list up to order, duplicates counted.
 */
module FlatPrefixTree {
  import opened Outcomes
  import opened Alphabet
  import opened Seqs
  import opened QueryValidator
  import opened NaiveSolver

  /** The end-of-word marker. */
  const End: char := '$'

  /** A prefix string to the set of characters that can follow it. */
  type PrefixTree = map<string, set<char>>

  /** One step of the inner loop: `prefix` gains `next`, a new key starting as `{next}`. */
  function AddNext(tree: PrefixTree, prefix: string, next: char): PrefixTree {
    if prefix !in tree then tree[prefix := {next}] else tree[prefix := tree[prefix] + {next}]
  }

  /** The first `n` steps of the inner loop for one word: prefixes `word[:1]` to `word[:n]`. */
  function AddPrefixes(tree: PrefixTree, word: string, n: nat): PrefixTree
    requires n <= |word|
  {
    if n == 0 then tree
    else AddNext(AddPrefixes(tree, word, n - 1), word[..n], (word + [End])[n])
  }

  /** The dictionary after the outer loop has visited every word of `words`. */
  function WordsTree(words: seq<string>): PrefixTree {
    if words == [] then map[]
    else
      var last := words[|words| - 1];
      AddPrefixes(WordsTree(words[..|words| - 1]), last, |last|)
  }

  /** What `preprocess_get_prefix_tree` returns: the loop's dictionary with the root set to the 26 letters. */
  function PrefixTreeOf(dictionary: seq<string>): PrefixTree {
    WordsTree(dictionary)["" := AllLetters()]
  }

  /** The preprocessor: a loop over the words and, inside, over the positions of each word. */
  method PreprocessPrefixTree(dictionary: seq<string>) returns (tree: PrefixTree)
    ensures tree == PrefixTreeOf(dictionary)
  {
    tree := map[];
    for j := 0 to |dictionary|
      invariant tree == WordsTree(dictionary[..j])
    {
      var word := dictionary[j];
      var wordWithEnd := word + [End];
      ghost var before := tree;
      for i := 1 to |wordWithEnd|
        invariant tree == AddPrefixes(before, word, i - 1)
      {
        var prefix, nextChar := wordWithEnd[..i], wordWithEnd[i];
        assert prefix == word[..i];
        if prefix !in tree {
          tree := tree[prefix := {nextChar}];
        } else {
          tree := tree[prefix := tree[prefix] + {nextChar}];
        }
      }
      assert dictionary[..j + 1][..j] == dictionary[..j];
    }
    assert dictionary[..|dictionary|] == dictionary;
    tree := tree["" := AllLetters()];
  }

  /** Some word of `words` starts with `p`. */
  predicate Starts(words: seq<string>, p: string) {
    exists w | w in words :: IsPrefix(p, w)
  }

  /** Some word of `words` starts with `p` and continues with `c`, or ends there when `c` is `'$'`. */
  predicate Continues(words: seq<string>, p: string, c: char) {
    exists w | w in words :: IsPrefix(p, w) && (w + [End])[|p|] == c
  }

  /** The inner loop adds exactly the prefixes `word[:1]` .. `word[:n]`, each with the character after it. */
  lemma {:induction false} AddPrefixesSpec(tree: PrefixTree, word: string, n: nat, p: string, c: char)
    requires n <= |word|
    ensures p in AddPrefixes(tree, word, n) <==> p in tree || (1 <= |p| <= n && IsPrefix(p, word))
    ensures (p in AddPrefixes(tree, word, n) && c in AddPrefixes(tree, word, n)[p]) <==>
      (p in tree && c in tree[p]) || (1 <= |p| <= n && IsPrefix(p, word) && (word + [End])[|p|] == c)
  {
    if n > 0 {
      AddPrefixesSpec(tree, word, n - 1, p, c);
      if |p| == n && IsPrefix(p, word) {
        assert p == word[..n];
      }
    }
  }

  /**
   * The structure of the built dictionary: the non-empty keys are exactly
   * the non-empty prefixes of the words, and each maps to exactly the
   * characters that follow it in some word (`'$'` where a word ends).
   */
  lemma {:induction false} WordsTreeSpec(words: seq<string>, p: string, c: char)
    requires p != []
    ensures p in WordsTree(words) <==> Starts(words, p)
    ensures (p in WordsTree(words) && c in WordsTree(words)[p]) <==> Continues(words, p, c)
  {
    if words != [] {
      var init, last := words[..|words| - 1], words[|words| - 1];
      WordsTreeSpec(init, p, c);
      AddPrefixesSpec(WordsTree(init), last, |last|, p, c);
      assert words == init + [last];
      if Starts(words, p) {
        var w :| w in words && IsPrefix(p, w);
        if w != last {
          assert w in init;
        }
      }
      if Continues(words, p, c) {
        var w :| w in words && IsPrefix(p, w) && (w + [End])[|p|] == c;
        if w != last {
          assert w in init;
        }
      }
    }
  }

  /** The root holds all 26 letters, and every other key is as `WordsTreeSpec` says. */
  lemma PrefixTreeOfSpec(dictionary: seq<string>, p: string, c: char)
    ensures "" in PrefixTreeOf(dictionary) && PrefixTreeOf(dictionary)[""] == AllLetters()
    ensures p != [] ==> (p in PrefixTreeOf(dictionary) <==> Starts(dictionary, p))
    ensures p != [] ==> ((p in PrefixTreeOf(dictionary) && c in PrefixTreeOf(dictionary)[p]) <==>
      Continues(dictionary, p, c))
  {
    if p != [] {
      WordsTreeSpec(dictionary, p, c);
    }
  }

  /** The length of the longest key: no descent goes deeper than one past it. */
  ghost function Height(keys: set<string>): (n: nat)
    ensures forall k | k in keys :: |k| <= n
    decreases keys
  {
    if keys == {} then 0
    else
      var k := Pick(keys);
      var n := Height(keys - {k});
      if |k| > n then |k| else n
  }

  /**
   * `_traverse_prefix_tree` with a prefix that is not a key read as having
   * no continuations (the source raises KeyError there; see `ExploreAsWritten`).
   */
  ghost function Explore(tree: PrefixTree, prefix: string, center: char, valid: set<char>): multiset<string>
    decreases Height(tree.Keys) + 1 - |prefix|, 1, 0
  {
    if prefix !in tree then multiset{}
    else
      (if End in tree[prefix] && center in prefix then multiset{prefix} else multiset{}) +
      ExploreNext(tree, prefix, center, valid, tree[prefix])
  }

  /** The loop over the next characters `letters`, entering those in `valid`. */
  ghost function ExploreNext(tree: PrefixTree, prefix: string, center: char, valid: set<char>,
                             letters: set<char>): multiset<string>
    requires prefix in tree
    decreases Height(tree.Keys) + 1 - |prefix|, 0, |letters|
  {
    if letters == {} then multiset{}
    else
      var l := Pick(letters);
      (if l in valid then Explore(tree, prefix + [l], center, valid) else multiset{}) +
      ExploreNext(tree, prefix, center, valid, letters - {l})
  }

  /** `_traverse_prefix_tree` as written: a prefix that is not a key raises KeyError. */
  ghost function ExploreAsWritten(tree: PrefixTree, prefix: string, center: char, valid: set<char>):
    Result<multiset<string>>
    decreases Height(tree.Keys) + 1 - |prefix|, 1, 0
  {
    if prefix !in tree then Failure(MissingPrefix)
    else
      var rest := ExploreNextAsWritten(tree, prefix, center, valid, tree[prefix]);
      if rest.Failure? then rest
      else Success((if End in tree[prefix] && center in prefix then multiset{prefix} else multiset{}) + rest.value)
  }

  ghost function ExploreNextAsWritten(tree: PrefixTree, prefix: string, center: char, valid: set<char>,
                                      letters: set<char>): Result<multiset<string>>
    requires prefix in tree
    decreases Height(tree.Keys) + 1 - |prefix|, 0, |letters|
  {
    if letters == {} then Success(multiset{})
    else
      var l := Pick(letters);
      var first := if l in valid then ExploreAsWritten(tree, prefix + [l], center, valid) else Success(multiset{});
      var rest := ExploreNextAsWritten(tree, prefix, center, valid, letters - {l});
      if first.Failure? then first
      else if rest.Failure? then rest
      else Success(first.value + rest.value)
  }

  /** `get_bee_solutions_prefix_tree` as written. */
  ghost function SolveAsWritten(center: string, others: string, tree: PrefixTree): Result<multiset<string>> {
    match Validate(center, others)
    case Fail(e) => Failure(e)
    case Pass => ExploreAsWritten(tree, "", center[0], LetterSet(center + others))
  }

  /** `get_bee_solutions_prefix_tree` with a missing prefix read as a dead end. */
  ghost function Solve(center: string, others: string, tree: PrefixTree): Result<multiset<string>> {
    match Validate(center, others)
    case Fail(e) => Failure(e)
    case Pass => Success(Explore(tree, "", center[0], LetterSet(center + others)))
  }

  /** A traversal only emits words that extend its prefix. */
  lemma {:induction false} ExploreOnlyExtensions(tree: PrefixTree, prefix: string, center: char, valid: set<char>,
                                                 w: string)
    ensures Explore(tree, prefix, center, valid)[w] != 0 ==> IsPrefix(prefix, w)
    decreases Height(tree.Keys) + 1 - |prefix|, 1, 0
  {
    if prefix in tree {
      ExploreNextOnlyExtensions(tree, prefix, center, valid, tree[prefix], w);
    }
  }

  /** Below a prefix, only words continuing with one of `letters` are emitted. */
  lemma {:induction false} ExploreNextOnlyExtensions(tree: PrefixTree, prefix: string, center: char,
                                                     valid: set<char>, letters: set<char>, w: string)
    requires prefix in tree
    ensures ExploreNext(tree, prefix, center, valid, letters)[w] != 0 ==>
      |prefix| < |w| && IsPrefix(prefix, w) && w[|prefix|] in letters
    decreases Height(tree.Keys) + 1 - |prefix|, 0, |letters|
  {
    if letters != {} {
      var l := Pick(letters);
      if l in valid {
        ExploreOnlyExtensions(tree, prefix + [l], center, valid, w);
        if IsPrefix(prefix + [l], w) {
          assert w[..|prefix|] == (prefix + [l])[..|prefix|];
          assert w[|prefix|] == (prefix + [l])[|prefix|];
        }
      }
      ExploreNextOnlyExtensions(tree, prefix, center, valid, letters - {l}, w);
    }
  }

  /** Of the loop over the next characters, only the branch of the word's own next letter counts it. */
  lemma {:induction false} ExploreNextCount(tree: PrefixTree, prefix: string, center: char, valid: set<char>,
                                            letters: set<char>, w: string)
    requires prefix in tree
    ensures ExploreNext(tree, prefix, center, valid, letters)[w] ==
      if |prefix| < |w| && IsPrefix(prefix, w) && w[|prefix|] in letters && w[|prefix|] in valid
      then Explore(tree, prefix + [w[|prefix|]], center, valid)[w] else 0
    decreases |letters|
  {
    if letters != {} {
      var l := Pick(letters);
      ExploreNextCount(tree, prefix, center, valid, letters - {l}, w);
      if l in valid {
        ExploreOnlyExtensions(tree, prefix + [l], center, valid, w);
        if IsPrefix(prefix + [l], w) {
          assert w[|prefix|] == (prefix + [l])[|prefix|];
        }
      }
    }
  }

  /** A character that ends a lowercase dictionary word's prefix with `'$'` means the prefix is that word. */
  lemma EndMeansWord(d: seq<string>, p: string)
    requires AllWordsLower(d)
    ensures Continues(d, p, End) <==> p in d
  {
    if p in d {
      assert IsPrefix(p, p) && (p + [End])[|p|] == End;
    }
    if Continues(d, p, End) {
      var w :| w in d && IsPrefix(p, w) && (w + [End])[|p|] == End;
      var k :| 0 <= k < |d| && d[k] == w;
      assert w == w[..|p|];
    }
  }

  /**
   * Below a non-empty prefix of the built tree, the traversal counts each
   * dictionary word that extends the prefix, holds the center and continues
   * with query letters only, once; every other string not at all.
   */
  lemma {:induction false} ExploreCount(d: seq<string>, prefix: string, center: char, valid: set<char>, w: string)
    requires AllWordsLower(d) && prefix != []
    ensures Explore(PrefixTreeOf(d), prefix, center, valid)[w] ==
      if w in d && IsPrefix(prefix, w) && center in w && (forall i | |prefix| <= i < |w| :: w[i] in valid)
      then 1 else 0
    decreases Height(PrefixTreeOf(d).Keys) + 1 - |prefix|
  {
    var tree := PrefixTreeOf(d);
    PrefixTreeOfSpec(d, prefix, End);
    if prefix !in tree {
      if w in d && IsPrefix(prefix, w) {
        assert Starts(d, prefix);
      }
    } else {
      ExploreNextCount(tree, prefix, center, valid, tree[prefix], w);
      EndMeansWord(d, prefix);
      if |prefix| < |w| && IsPrefix(prefix, w) {
        var q := prefix + [w[|prefix|]];
        OneLetterDeeper(d, prefix, w, valid);
        ExploreCount(d, q, center, valid, w);
      } else if w == prefix {
        assert IsPrefix(prefix, w);
      }
    }
  }

  /** The step of `ExploreCount` from a prefix of a word to the prefix one letter longer. */
  lemma OneLetterDeeper(d: seq<string>, prefix: string, w: string, valid: set<char>)
    requires prefix != [] && |prefix| < |w| && IsPrefix(prefix, w)
    ensures IsPrefix(prefix + [w[|prefix|]], w)
    ensures w in d ==> prefix in PrefixTreeOf(d) && w[|prefix|] in PrefixTreeOf(d)[prefix]
    ensures (forall i | |prefix| <= i < |w| :: w[i] in valid) <==>
      w[|prefix|] in valid && forall i | |prefix| + 1 <= i < |w| :: w[i] in valid
  {
    var l := w[|prefix|];
    assert w[..|prefix| + 1] == w[..|prefix|] + [l];
    if w in d {
      PrefixTreeOfSpec(d, prefix, l);
      assert (w + [End])[|prefix|] == l;
      assert Continues(d, prefix, l);
    }
  }

  /** A word of a lowercase dictionary is made of the root's letters. */
  lemma LowerWordLetters(d: seq<string>, w: string)
    requires AllWordsLower(d) && w in d
    ensures LetterSet(w) <= AllLetters()
  {
    var k :| 0 <= k < |d| && d[k] == w;
  }

  /**
   * From the root the traversal counts each dictionary word that holds the
   * center and uses query letters only, once; every other string not at all.
   */
  lemma ExploreRootCount(d: seq<string>, center: char, valid: set<char>, w: string)
    requires AllWordsLower(d)
    ensures Explore(PrefixTreeOf(d), "", center, valid)[w] ==
      if w in d && center in w && LetterSet(w) <= valid then 1 else 0
  {
    var tree := PrefixTreeOf(d);
    PrefixTreeOfSpec(d, "", End);
    assert Explore(tree, "", center, valid) == ExploreNext(tree, "", center, valid, AllLetters());
    ExploreNextCount(tree, "", center, valid, AllLetters(), w);
    if |w| > 0 {
      var q := [w[0]];
      assert IsPrefix(q, w) && [] + q == q;
      ExploreCount(d, q, center, valid, w);
      if w in d {
        LowerWordLetters(d, w);
      }
      FirstAndRest(w, valid);
    }
  }

  /** A non-empty word's letters are its first letter and those after it. */
  lemma FirstAndRest(w: string, valid: set<char>)
    requires |w| > 0
    ensures LetterSet(w) <= valid <==> w[0] in valid && forall i | 1 <= i < |w| :: w[i] in valid
  {
  }


  /**
   * The headline theorem for the flat prefix tree: on a lowercase
   * dictionary, the solver rejects exactly the queries the naive solver
   * rejects, with the same error, and otherwise returns each naive solution
   * exactly once and nothing else.
   */
  lemma PrefixTreeMatchesNaive(center: string, others: string, d: seq<string>)
    requires AllWordsLower(d)
    ensures Solve(center, others, PrefixTreeOf(d)).Failure? <==> NaiveSolution(center, others, d).Failure?
    ensures Solve(center, others, PrefixTreeOf(d)).Failure? ==>
      Solve(center, others, PrefixTreeOf(d)).error == NaiveSolution(center, others, d).error
    ensures Solve(center, others, PrefixTreeOf(d)).Success? ==>
      forall w :: Solve(center, others, PrefixTreeOf(d)).value[w] ==
        if w in NaiveSolution(center, others, d).value then 1 else 0
  {
    if Validate(center, others) == Pass {
      var valid := LetterSet(center + others);
      assert valid == LetterSet(others) + {center[0]};
      NaiveOracle(center, others, d);
      forall w
        ensures Explore(PrefixTreeOf(d), "", center[0], valid)[w] ==
          if w in NaiveSolution(center, others, d).value then 1 else 0
      {
        ExploreRootCount(d, center[0], valid, w);
      }
    }
  }

  /** Every query-letter continuation of a key is itself a key: then no lookup misses. */
  predicate Descends(tree: PrefixTree, valid: set<char>) {
    forall q, l | q in tree && l in tree[q] && l in valid :: q + [l] in tree
  }

  /** On a tree where no lookup misses, the traversal as written returns what the corrected one does. */
  lemma {:induction false} AsWrittenAgrees(tree: PrefixTree, prefix: string, center: char, valid: set<char>)
    requires Descends(tree, valid) && prefix in tree
    ensures ExploreAsWritten(tree, prefix, center, valid) == Success(Explore(tree, prefix, center, valid))
    decreases Height(tree.Keys) + 1 - |prefix|, 1, 0
  {
    AsWrittenAgreesNext(tree, prefix, center, valid, tree[prefix]);
  }

  lemma {:induction false} AsWrittenAgreesNext(tree: PrefixTree, prefix: string, center: char, valid: set<char>,
                                               letters: set<char>)
    requires Descends(tree, valid) && prefix in tree && letters <= tree[prefix]
    ensures ExploreNextAsWritten(tree, prefix, center, valid, letters) ==
      Success(ExploreNext(tree, prefix, center, valid, letters))
    decreases Height(tree.Keys) + 1 - |prefix|, 0, |letters|
  {
    if letters != {} {
      var l := Pick(letters);
      if l in valid {
        AsWrittenAgrees(tree, prefix + [l], center, valid);
      }
      AsWrittenAgreesNext(tree, prefix, center, valid, letters - {l});
    }
  }

  /** The built tree has no missed lookup when every query letter starts some dictionary word. */
  lemma PrefixTreeDescends(d: seq<string>, valid: set<char>)
    requires AllWordsLower(d)
    requires forall l | l in valid :: [l] in PrefixTreeOf(d)
    ensures Descends(PrefixTreeOf(d), valid)
  {
    var tree := PrefixTreeOf(d);
    forall q, l | q in tree && l in tree[q] && l in valid
      ensures q + [l] in tree
    {
      if q == [] {
        assert q + [l] == [l];
      } else {
        PrefixTreeOfSpec(d, q, l);
        var w :| w in d && IsPrefix(q, w) && (w + [End])[|q|] == l;
        if |q| < |w| {
          assert IsPrefix(q + [l], w) by {
            assert w[..|q| + 1] == w[..|q|] + [w[|q|]];
          }
          PrefixTreeOfSpec(d, q + [l], l);
        } else {
          PrefixTreeOfSpec(d, [End], l);
          StartsWithEnd(d);
        }
      }
    }
  }

  /** No lowercase word starts with the end marker. */
  lemma StartsWithEnd(d: seq<string>)
    requires AllWordsLower(d)
    ensures !Starts(d, [End])
  {
    forall w | w in d
      ensures !IsPrefix([End], w)
    {
      var k :| 0 <= k < |d| && d[k] == w;
      assert |w| > 0 ==> IsLower(w[0]);
    }
  }

  /**
   * The solver as written gives the corrected result whenever every query
   * letter starts some dictionary word.
   */
  lemma SolveAsWrittenAgrees(center: string, others: string, d: seq<string>)
    requires AllWordsLower(d)
    requires forall l | l in center + others :: [l] in PrefixTreeOf(d)
    ensures SolveAsWritten(center, others, PrefixTreeOf(d)) == Solve(center, others, PrefixTreeOf(d))
  {
    if Validate(center, others) == Pass {
      PrefixTreeDescends(d, LetterSet(center + others));
      PrefixTreeOfSpec(d, "", End);
      AsWrittenAgrees(PrefixTreeOf(d), "", center[0], LetterSet(center + others));
    }
  }

  /** Every error the traversal as written raises is the KeyError. */
  lemma {:induction false} AsWrittenOnlyKeyError(tree: PrefixTree, prefix: string, center: char, valid: set<char>)
    ensures ExploreAsWritten(tree, prefix, center, valid).Failure? ==>
      ExploreAsWritten(tree, prefix, center, valid).error == MissingPrefix
    decreases Height(tree.Keys) + 1 - |prefix|, 1, 0
  {
    if prefix in tree {
      AsWrittenNextOnlyKeyError(tree, prefix, center, valid, tree[prefix]);
    }
  }

  lemma {:induction false} AsWrittenNextOnlyKeyError(tree: PrefixTree, prefix: string, center: char,
                                                     valid: set<char>, letters: set<char>)
    requires prefix in tree
    ensures ExploreNextAsWritten(tree, prefix, center, valid, letters).Failure? ==>
      ExploreNextAsWritten(tree, prefix, center, valid, letters).error == MissingPrefix
    decreases Height(tree.Keys) + 1 - |prefix|, 0, |letters|
  {
    if letters != {} {
      var l := Pick(letters);
      if l in valid {
        AsWrittenOnlyKeyError(tree, prefix + [l], center, valid);
      }
      AsWrittenNextOnlyKeyError(tree, prefix, center, valid, letters - {l});
    }
  }

  /** One failing branch makes the whole loop over the next characters fail. */
  lemma {:induction false} AsWrittenNextFails(tree: PrefixTree, prefix: string, center: char, valid: set<char>,
                                              letters: set<char>, l: char)
    requires prefix in tree && l in letters && l in valid
    requires ExploreAsWritten(tree, prefix + [l], center, valid).Failure?
    ensures ExploreNextAsWritten(tree, prefix, center, valid, letters).Failure?
    decreases |letters|
  {
    var m := Pick(letters);
    if m != l {
      AsWrittenNextFails(tree, prefix, center, valid, letters - {m}, l);
    }
  }

  /**
   * The root holds all 26 letters, so the solver as written looks up every
   * lowercase query letter as a prefix: on a valid query with a lowercase
   * letter that starts no dictionary word it raises KeyError, whatever the
   * dictionary.
   */
  lemma AsWrittenFailsOnMissingLetter(center: string, others: string, d: seq<string>, l: char)
    requires Validate(center, others) == Pass
    requires l in center + others && IsLower(l) && !Starts(d, [l])
    ensures SolveAsWritten(center, others, PrefixTreeOf(d)) == Failure(MissingPrefix)
  {
    var tree := PrefixTreeOf(d);
    var valid := LetterSet(center + others);
    PrefixTreeOfSpec(d, [l], End);
    PrefixTreeOfSpec(d, "", End);
    assert [] + [l] == [l];
    AsWrittenNextFails(tree, "", center[0], valid, AllLetters(), l);
    AsWrittenOnlyKeyError(tree, "", center[0], valid);
  }

  /**
   * The dictionary [rot, rob, rat, art, tar, too] with center `t` and others
   * `orabyz`: the letter `b` of the query starts no word, so the solver as
   * written raises KeyError where the naive solver answers.
   */
  lemma AsWrittenFailsOnScenario(d: seq<string>)
    requires d == ["rot", "rob", "rat", "art", "tar", "too"]
    ensures SolveAsWritten("t", "orabyz", PrefixTreeOf(d)) == Failure(MissingPrefix)
    ensures NaiveSolution("t", "orabyz", d).Success?
  {
    ScenarioQueriesValid();
    assert ("t" + "orabyz")[4] == 'b';
    assert !Starts(d, "b") by {
      forall w | w in d
        ensures !IsPrefix("b", w)
      {
        assert w[0] != 'b';
      }
    }
    AsWrittenFailsOnMissingLetter("t", "orabyz", d, 'b');
  }
}
