/**
 * The nested prefix tree: every node is a dictionary whose keys are whole
 * prefixes one letter longer than the node's own (`'ro'` under `'r'`), plus
 * the key `'$'` mapped to `None` where a word ends. The preprocessor inserts
 * suffixes recursively into the dictionary it is given and returns it; the
 * traversal enters the children whose last character is a query letter.
 */
module NestedPrefixTree {
  import opened Outcomes
  import opened Alphabet
  import opened Seqs
  import opened QueryValidator
  import opened NaiveSolver
  import opened NestedDicts

  type Tree = NestedDict<string>

  /** The end-of-word key. */
  const End: string := "$"

  /**
   * The preprocessor on the one-suffix list `[suffix]`, the form of every
   * recursive call: `['']` marks the end of a word, otherwise the suffix's
   * first letter extends the key and the rest goes one level down.
   */
  function Insert(node: Tree, prefix: string, suffix: string): Result<Tree>
    decreases |suffix|
  {
    if node.Null? then Failure(NoneNode)
    else if suffix == "" then Success(Dict(node.entries[End := Null]))
    else
      var newPrefix := prefix + [suffix[0]];
      var child := if newPrefix in node.entries then node.entries[newPrefix] else Empty();
      var sub := Insert(child, newPrefix, suffix[1..]);
      if sub.Failure? then Failure(sub.error)
      else Success(Dict(node.entries[newPrefix := sub.value]))
  }

  /** The loop over a suffix list, stopping at the first exception. */
  function InsertEach(prefix: string, suffixes: seq<string>, tree: Tree): Result<Tree>
    decreases |suffixes|
  {
    if suffixes == [] then Success(tree)
    else if suffixes[0] == "" then Failure(EmptySuffix)
    else
      var next := Insert(tree, prefix, suffixes[0]);
      if next.Failure? then next
      else InsertEach(prefix, suffixes[1..], next.value)
  }

  /** What `preprocess_get_nested_prefix_tree(prefix, suffix_list, curr_tree)` returns or raises. */
  function Preprocessed(prefix: string, suffixList: seq<string>, tree: Tree): Result<Tree> {
    if suffixList == [""] then Insert(tree, prefix, "")
    else InsertEach(prefix, suffixList, tree)
  }

  /** A one-suffix list is inserted as `Insert` says. */
  lemma PreprocessedSingle(prefix: string, suffix: string, tree: Tree)
    ensures Preprocessed(prefix, [suffix], tree) == Insert(tree, prefix, suffix)
  {
    if suffix != "" {
      assert [suffix] != [""];
      assert [suffix][0] == suffix && [suffix][1..] == [];
      var next := Insert(tree, prefix, suffix);
      if next.Success? {
        assert InsertEach(prefix, [], next.value) == next;
      }
    }
  }

  /** The preprocessor, recursive as in the source, on the dictionary value it is given. */
  method PreprocessNestedPrefixTree(prefix: string, suffixList: seq<string>, currTree: Tree) returns (r: Result<Tree>)
    ensures r == Preprocessed(prefix, suffixList, currTree)
    decreases Longest(suffixList)
  {
    if suffixList == [""] {
      if currTree.Null? {
        return Failure(NoneNode);
      }
      return Success(Dict(currTree.entries[End := Null]));
    }
    var tree := currTree;
    for i := 0 to |suffixList|
      invariant InsertEach(prefix, suffixList, currTree) == InsertEach(prefix, suffixList[i..], tree)
    {
      assert suffixList[i..][1..] == suffixList[i + 1..];
      var suffix := suffixList[i];
      if suffix == "" {
        return Failure(EmptySuffix);
      }
      var newPrefix := prefix + [suffix[0]];
      if tree.Null? {
        return Failure(NoneNode);
      }
      var child := if newPrefix in tree.entries then tree.entries[newPrefix] else Empty();
      assert Longest([suffix[1..]]) == |suffix| - 1 by {
        assert [suffix[1..]][..0] == [];
      }
      var sub := PreprocessNestedPrefixTree(newPrefix, [suffix[1..]], child);
      PreprocessedSingle(newPrefix, suffix[1..], child);
      if sub.Failure? {
        return Failure(sub.error);
      }
      tree := Dict(tree.entries[newPrefix := sub.value]);
    }
    return Success(tree);
  }

  /** The preprocessor's top-level call on a dictionary, `preprocess_get_nested_prefix_tree('', dictionary, {})`. */
  function NestedPrefixTreeOf(dictionary: seq<string>): Result<Tree> {
    Preprocessed("", dictionary, Empty())
  }

  /**
   * Following the growing prefixes of `suffix` down from a node reaches a
   * node that holds the end marker: the tree holds `prefix + suffix`.
   */
  predicate Reaches(node: Tree, prefix: string, suffix: string)
    decreases |suffix|
  {
    node.Dict? &&
    if suffix == "" then End in node.entries
    else
      var next := prefix + [suffix[0]];
      next in node.entries && Reaches(node.entries[next], next, suffix[1..])
  }

  /**
   * The shape the preprocessor builds from lowercase words: each key is the
   * end marker, mapped to `None`, or the node's prefix plus one lowercase
   * letter, mapped to a node of the same shape.
   */
  predicate WellKeyed(node: Tree, prefix: string)
    decreases node
  {
    node.Dict? &&
    forall k | k in node.entries ::
      if k == End then node.entries[k] == Null
      else |k| == |prefix| + 1 && IsPrefix(prefix, k) && IsLower(k[|prefix|]) && WellKeyed(node.entries[k], k)
  }

  /** A prefix extended by a character other than `'$'` is not the end-of-word key. */
  lemma ExtendedNotEnd(prefix: string, c: char)
    requires c != '$'
    ensures prefix + [c] != End
  {
    assert (prefix + [c])[|prefix|] == c;
    assert End[0] == '$';
  }

  /** Inserting a lowercase suffix into a well-keyed node succeeds and keeps the shape. */
  lemma {:induction false} InsertWellKeyed(node: Tree, prefix: string, suffix: string)
    requires WellKeyed(node, prefix) && AllLower(suffix)
    ensures Insert(node, prefix, suffix).Success?
    ensures WellKeyed(Insert(node, prefix, suffix).value, prefix)
    decreases |suffix|
  {
    if suffix != "" {
      var newPrefix := prefix + [suffix[0]];
      var child := if newPrefix in node.entries then node.entries[newPrefix] else Empty();
      ExtendedNotEnd(prefix, suffix[0]);
      InsertWellKeyed(child, newPrefix, suffix[1..]);
    }
  }

  /** After inserting a lowercase suffix, the node holds exactly what it held and that suffix. */
  lemma {:induction false} InsertReaches(node: Tree, prefix: string, suffix: string, other: string)
    requires WellKeyed(node, prefix) && AllLower(suffix) && AllLower(other)
    ensures Insert(node, prefix, suffix).Success?
    ensures Reaches(Insert(node, prefix, suffix).value, prefix, other) <==> Reaches(node, prefix, other) || other == suffix
    decreases |suffix|
  {
    InsertWellKeyed(node, prefix, suffix);
    var after := Insert(node, prefix, suffix).value;
    if suffix != "" {
      var newPrefix := prefix + [suffix[0]];
      var child := if newPrefix in node.entries then node.entries[newPrefix] else Empty();
      ExtendedNotEnd(prefix, suffix[0]);
      InsertWellKeyed(child, newPrefix, suffix[1..]);
      assert after.entries == node.entries[newPrefix := Insert(child, newPrefix, suffix[1..]).value];
      if other != "" && other[0] == suffix[0] {
        InsertReaches(child, newPrefix, suffix[1..], other[1..]);
        assert other == [other[0]] + other[1..] && suffix == [suffix[0]] + suffix[1..];
      } else {
        if other != "" {
          assert prefix + [other[0]] != newPrefix by {
            assert (prefix + [other[0]])[|prefix|] != newPrefix[|prefix|];
          }
        }
        ReachesSameEntry(node, after, prefix, other);
      }
    } else {
      if other != "" {
        ExtendedNotEnd(prefix, other[0]);
        ReachesSameEntry(node, after, prefix, other);
      }
    }
  }

  /** Two nodes that agree on the one entry a suffix looks up first agree on whether they hold it. */
  lemma ReachesSameEntry(a: Tree, b: Tree, prefix: string, other: string)
    requires a.Dict? && b.Dict?
    requires other == "" ==> (End in a.entries <==> End in b.entries)
    requires other != "" ==>
      (prefix + [other[0]] in a.entries <==> prefix + [other[0]] in b.entries) &&
      (prefix + [other[0]] in a.entries ==> a.entries[prefix + [other[0]]] == b.entries[prefix + [other[0]]])
    ensures Reaches(a, prefix, other) <==> Reaches(b, prefix, other)
  {
  }

  /** Re-inserting a suffix the node already holds leaves it unchanged. */
  lemma {:induction false} InsertExisting(node: Tree, prefix: string, suffix: string)
    requires WellKeyed(node, prefix) && Reaches(node, prefix, suffix)
    ensures Insert(node, prefix, suffix) == Success(node)
    decreases |suffix|
  {
    if suffix != "" {
      var newPrefix := prefix + [suffix[0]];
      InsertExisting(node.entries[newPrefix], newPrefix, suffix[1..]);
      assert node.entries[newPrefix := node.entries[newPrefix]] == node.entries;
    } else {
      assert node.entries[End := Null] == node.entries;
    }
  }

  /**
   * The loop over a list of lowercase suffixes fails exactly when one of
   * them is empty; otherwise the node then holds what it held and every
   * suffix of the list.
   */
  lemma {:induction false} InsertEachSpec(prefix: string, suffixes: seq<string>, tree: Tree)
    requires WellKeyed(tree, prefix) && AllWordsLower(suffixes)
    ensures InsertEach(prefix, suffixes, tree).Success? <==> "" !in suffixes
    ensures InsertEach(prefix, suffixes, tree).Success? ==>
      WellKeyed(InsertEach(prefix, suffixes, tree).value, prefix) &&
      forall s | AllLower(s) :: Reaches(InsertEach(prefix, suffixes, tree).value, prefix, s) <==>
        Reaches(tree, prefix, s) || s in suffixes
    decreases |suffixes|
  {
    if suffixes != [] && suffixes[0] != "" {
      InsertWellKeyed(tree, prefix, suffixes[0]);
      var next := Insert(tree, prefix, suffixes[0]).value;
      assert AllWordsLower(suffixes[1..]) by {
        forall i | 0 <= i < |suffixes[1..]| ensures AllLower(suffixes[1..][i]) {
          assert suffixes[1..][i] == suffixes[i + 1];
        }
      }
      InsertEachSpec(prefix, suffixes[1..], next);
      assert suffixes == [suffixes[0]] + suffixes[1..];
      forall s | AllLower(s)
        ensures Reaches(next, prefix, s) <==> Reaches(tree, prefix, s) || s == suffixes[0]
      {
        InsertReaches(tree, prefix, suffixes[0], s);
      }
    }
  }

  /**
   * The tree built from a lowercase dictionary: it is built unless the
   * dictionary holds the empty word beside others (`suffix[0]` raises), and
   * then it holds exactly the dictionary's words.
   */
  lemma NestedPrefixTreeOfSpec(d: seq<string>)
    requires AllWordsLower(d)
    ensures NestedPrefixTreeOf(d).Success? <==> d == [""] || "" !in d
    ensures NestedPrefixTreeOf(d).Success? ==>
      WellKeyed(NestedPrefixTreeOf(d).value, "") &&
      forall s | AllLower(s) :: Reaches(NestedPrefixTreeOf(d).value, "", s) <==> s in d
  {
    if d == [""] {
      forall s | AllLower(s) ensures Reaches(NestedPrefixTreeOf(d).value, "", s) <==> s in d {
        if s != "" {
          ExtendedNotEnd([], s[0]);
        }
      }
    } else {
      InsertEachSpec("", d, Empty());
    }
  }

  /**
   * `_traverse_nested_prefix_tree`: the node's prefix if it ends a word and
   * holds the center, then the traversals of the children entered. A `None`
   * node raises TypeError at `'$' in nested_prefix_tree`.
   */
  ghost function Explore(node: Tree, prefix: string, center: char, valid: set<char>): Result<multiset<string>>
    decreases node, 1, 0
  {
    if node.Null? then Failure(NoneNode)
    else
      var rest := ExploreChildren(node, center, valid, node.entries.Keys);
      if rest.Failure? then rest
      else Success((if End in node.entries && center in prefix then multiset{prefix} else multiset{}) + rest.value)
  }

  /** The loop over the child keys: a key whose last character (`child_prefix[-1:]`) is a query letter is entered. */
  ghost function ExploreChildren(node: Tree, center: char, valid: set<char>, keys: set<string>):
    Result<multiset<string>>
    requires node.Dict? && keys <= node.entries.Keys
    decreases node, 0, |keys|
  {
    if keys == {} then Success(multiset{})
    else
      var k := Pick(keys);
      var first := if |k| > 0 && k[|k| - 1] in valid then Explore(node.entries[k], k, center, valid)
                   else Success(multiset{});
      var rest := ExploreChildren(node, center, valid, keys - {k});
      if first.Failure? then first
      else if rest.Failure? then rest
      else Success(first.value + rest.value)
  }

  /** `get_bee_solutions_nested_prefix_tree`. */
  ghost function Solve(center: string, others: string, tree: Tree): Result<multiset<string>> {
    match Validate(center, others)
    case Fail(e) => Failure(e)
    case Pass => Explore(tree, "", center[0], LetterSet(center + others))
  }

  /**
   * What the traversal below `prefix` counts `w` for: `w` extends the
   * prefix, the node holds the rest of it, it holds the center and it
   * continues with query letters only.
   */
  ghost predicate Counted(node: Tree, prefix: string, center: char, valid: set<char>, w: string) {
    IsPrefix(prefix, w) && Reaches(node, prefix, w[|prefix|..]) && center in w &&
    forall i | |prefix| <= i < |w| :: w[i] in valid
  }

  /**
   * On a well-keyed tree and a query without `'$'`, the traversal succeeds
   * and counts each word it should once and nothing else.
   */
  lemma {:induction false} ExploreSpec(node: Tree, prefix: string, center: char, valid: set<char>, w: string)
    requires WellKeyed(node, prefix) && '$' !in valid
    ensures Explore(node, prefix, center, valid).Success?
    ensures Explore(node, prefix, center, valid).value[w] == if Counted(node, prefix, center, valid, w) then 1 else 0
    decreases node, 1, 0
  {
    ExploreChildrenSpec(node, prefix, center, valid, node.entries.Keys, w);
    CountedStep(node, prefix, center, valid, w);
  }

  /** `Counted` one level down: the word is the node's own prefix, or it continues into one child. */
  lemma CountedStep(node: Tree, prefix: string, center: char, valid: set<char>, w: string)
    requires node.Dict?
    ensures w == prefix ==> (Counted(node, prefix, center, valid, w) <==> End in node.entries && center in w)
    ensures |prefix| < |w| && IsPrefix(prefix, w) ==>
      (Counted(node, prefix, center, valid, w) <==>
        prefix + [w[|prefix|]] in node.entries && w[|prefix|] in valid &&
        Counted(node.entries[prefix + [w[|prefix|]]], prefix + [w[|prefix|]], center, valid, w))
    ensures w != prefix && !(|prefix| < |w| && IsPrefix(prefix, w)) ==> !Counted(node, prefix, center, valid, w)
  {
    if |prefix| < |w| && IsPrefix(prefix, w) {
      var k := prefix + [w[|prefix|]];
      assert w[|prefix|..][0] == w[|prefix|] && w[|prefix|..][1..] == w[|k|..];
      assert IsPrefix(k, w) by {
        assert w[..|k|] == w[..|prefix|] + [w[|prefix|]];
      }
    } else if w == prefix {
      assert w[|prefix|..] == "";
    }
  }

  lemma {:induction false} ExploreChildrenSpec(node: Tree, prefix: string, center: char, valid: set<char>,
                                               keys: set<string>, w: string)
    requires WellKeyed(node, prefix) && '$' !in valid && keys <= node.entries.Keys
    ensures ExploreChildren(node, center, valid, keys).Success?
    ensures ExploreChildren(node, center, valid, keys).value[w] ==
      if |prefix| < |w| && IsPrefix(prefix, w) && prefix + [w[|prefix|]] in keys && w[|prefix|] in valid &&
         Counted(node.entries[prefix + [w[|prefix|]]], prefix + [w[|prefix|]], center, valid, w)
      then 1 else 0
    decreases node, 0, |keys|
  {
    if keys != {} {
      var k := Pick(keys);
      ExploreChildrenSpec(node, prefix, center, valid, keys - {k}, w);
      if k != End {
        var c := ChildKey(node, prefix, k);
        assert k[|k| - 1] == c;
        if c in valid {
          ExploreSpec(node.entries[k], k, center, valid, w);
          CountedExtends(node.entries[k], prefix, c, center, valid, w);
        }
      }
    }
  }

  /** A child key other than the end marker is the prefix plus one lowercase letter, over a well-keyed node. */
  lemma ChildKey(node: Tree, prefix: string, k: string) returns (c: char)
    requires WellKeyed(node, prefix) && k in node.entries && k != End
    ensures k == prefix + [c] && IsLower(c) && WellKeyed(node.entries[k], k)
  {
    c := k[|prefix|];
    assert k == k[..|prefix|] + [c];
  }

  /** Below `prefix + [c]` only words continuing the prefix with `c` are counted. */
  lemma CountedExtends(child: Tree, prefix: string, c: char, center: char, valid: set<char>, w: string)
    ensures Counted(child, prefix + [c], center, valid, w) ==>
      |prefix| < |w| && IsPrefix(prefix, w) && w[|prefix|] == c
  {
    var k := prefix + [c];
    if IsPrefix(k, w) {
      assert w[|prefix|] == k[|prefix|];
      assert w[..|prefix|] == w[..|k|][..|prefix|];
    }
  }

  /** A node that ends a word, under a query holding `'$'`, makes the traversal enter the `None` and raise. */
  lemma ExploreEndMarkerFails(node: Tree, prefix: string, center: char, valid: set<char>)
    requires node.Dict? && End in node.entries && node.entries[End] == Null && '$' in valid
    ensures Explore(node, prefix, center, valid) == Failure(NoneNode)
  {
    ExploreChildrenFails(node, center, valid, node.entries.Keys);
  }

  lemma {:induction false} ExploreChildrenFails(node: Tree, center: char, valid: set<char>, keys: set<string>)
    requires node.Dict? && keys <= node.entries.Keys && End in keys && node.entries[End] == Null && '$' in valid
    ensures ExploreChildren(node, center, valid, keys) == Failure(NoneNode)
    decreases |keys|
  {
    var k := Pick(keys);
    if k != End {
      ExploreChildrenFails(node, center, valid, keys - {k});
      if |k| > 0 && k[|k| - 1] in valid {
        ExploreOnlyTypeError(node.entries[k], k, center, valid);
      }
    } else {
      assert End[|End| - 1] == '$';
    }
  }

  /** The only exception the traversal raises is the TypeError of a `None` node. */
  lemma {:induction false} ExploreOnlyTypeError(node: Tree, prefix: string, center: char, valid: set<char>)
    ensures Explore(node, prefix, center, valid).Failure? ==> Explore(node, prefix, center, valid).error == NoneNode
    decreases node, 1, 0
  {
    if node.Dict? {
      ExploreChildrenOnlyTypeError(node, center, valid, node.entries.Keys);
    }
  }

  lemma {:induction false} ExploreChildrenOnlyTypeError(node: Tree, center: char, valid: set<char>, keys: set<string>)
    requires node.Dict? && keys <= node.entries.Keys
    ensures ExploreChildren(node, center, valid, keys).Failure? ==>
      ExploreChildren(node, center, valid, keys).error == NoneNode
    decreases node, 0, |keys|
  {
    if keys != {} {
      var k := Pick(keys);
      if |k| > 0 && k[|k| - 1] in valid {
        ExploreOnlyTypeError(node.entries[k], k, center, valid);
      }
      ExploreChildrenOnlyTypeError(node, center, valid, keys - {k});
    }
  }

  /** Only lowercase words can be reached in a well-keyed tree. */
  lemma {:induction false} ReachesLower(node: Tree, prefix: string, suffix: string)
    requires WellKeyed(node, prefix) && Reaches(node, prefix, suffix)
    ensures AllLower(suffix)
    decreases |suffix|
  {
    if suffix != "" {
      var next := prefix + [suffix[0]];
      assert next in node.entries;
      if next != End {
        assert next[|prefix|] == suffix[0];
        ReachesLower(node.entries[next], next, suffix[1..]);
        assert suffix == [suffix[0]] + suffix[1..];
      }
    }
  }

  /** From the root of a tree holding exactly `d`, the traversal counts each word of `d` with the center and query letters only, once. */
  lemma ExploreRootCount(d: seq<string>, t: Tree, center: char, valid: set<char>, w: string)
    requires WellKeyed(t, "") && '$' !in valid && AllWordsLower(d)
    requires forall s | AllLower(s) :: Reaches(t, "", s) <==> s in d
    ensures Explore(t, "", center, valid).Success?
    ensures Explore(t, "", center, valid).value[w] == if w in d && center in w && LetterSet(w) <= valid then 1 else 0
  {
    ExploreSpec(t, "", center, valid, w);
    assert w[|""|..] == w;
    if Reaches(t, "", w) {
      ReachesLower(t, "", w);
    }
    if w in d {
      LowerWordOf(d, w);
    }
  }

  /**
   * The headline theorem for the nested prefix tree: for a lowercase
   * dictionary the preprocessor accepts (no empty word beside others) and a
   * query without `'$'`, the solver rejects exactly the queries the naive
   * solver rejects, with the same error, and otherwise returns each naive
   * solution exactly once and nothing else.
   */
  lemma NestedPrefixTreeMatchesNaive(center: string, others: string, d: seq<string>)
    requires AllWordsLower(d) && (d == [""] || "" !in d)
    requires '$' !in center + others
    ensures NestedPrefixTreeOf(d).Success?
    ensures Solve(center, others, NestedPrefixTreeOf(d).value).Failure? <==> NaiveSolution(center, others, d).Failure?
    ensures Solve(center, others, NestedPrefixTreeOf(d).value).Failure? ==>
      Solve(center, others, NestedPrefixTreeOf(d).value).error == NaiveSolution(center, others, d).error
    ensures Solve(center, others, NestedPrefixTreeOf(d).value).Success? ==>
      forall w :: Solve(center, others, NestedPrefixTreeOf(d).value).value[w] ==
        if w in NaiveSolution(center, others, d).value then 1 else 0
  {
    NestedPrefixTreeOfSpec(d);
    var t := NestedPrefixTreeOf(d).value;
    if Validate(center, others) == Pass {
      var valid := LetterSet(center + others);
      assert valid == LetterSet(others) + {center[0]};
      NaiveOracle(center, others, d);
      forall w
        ensures Explore(t, "", center[0], valid).Success?
        ensures Explore(t, "", center[0], valid).value[w] ==
          if w in NaiveSolution(center, others, d).value then 1 else 0
      {
        ExploreRootCount(d, t, center[0], valid, w);
      }
    }
  }
}
