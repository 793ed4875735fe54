/**
 * The fixture of the unit tests (acsearch/tests/test_aho_corasick.py): the
 * trie of the words a, ab, bab, c, bca and caa, and the text "abccabx".
 * The general contracts of the model are instantiated on it, and each
 * method below states the concrete result one test expects.
 */
module Fixture {
  import opened Wrappers
  import opened Paths
  import opened Trie
  import opened Scan
  import opened Dictionary
  import opened Enumeration
  import opened Links

  // ---------------------------------------------------------------------------
  // The test trie
  // ---------------------------------------------------------------------------

  /** The eleven nodes TestACNode.setup creates, keyed by path. */
  function TestTrie(): (t: Trie)
    ensures Root in t.nodes && t.nodes[Root] == RootInfo
  {
    Trie(map[
      "" := RootInfo,
      "a" := NodeInfo(Some('a'), 1, true),
      "ab" := NodeInfo(Some('b'), 2, true),
      "b" := NodeInfo(Some('b'), 1, false),
      "ba" := NodeInfo(Some('a'), 2, false),
      "bab" := NodeInfo(Some('b'), 3, true),
      "bc" := NodeInfo(Some('c'), 2, false),
      "bca" := NodeInfo(Some('a'), 3, true),
      "c" := NodeInfo(Some('c'), 1, true),
      "ca" := NodeInfo(Some('a'), 2, false),
      "caa" := NodeInfo(Some('a'), 3, true)
    ])
  }

  /** test_init of TestACNode: every node has the char, parent and length `add_child` gives it. */
  lemma TestTrieValid()
    ensures Valid(TestTrie())
  {
    var t := TestTrie();
    forall p | p in t.nodes && p != Root
      ensures Parent(p) in t.nodes
      ensures t.nodes[p].symbol == Some(Last(p)) && t.nodes[p].len == |p|
    {
      if p == "a" || p == "b" || p == "c" {
        assert Parent(p) == "";
      } else if p == "ab" || p == "ba" || p == "bc" || p == "ca" {
        assert Parent(p) == [p[0]];
      } else if p == "bab" {
        assert Parent(p) == "ba";
      } else if p == "bca" {
        assert Parent(p) == "bc";
      } else {
        assert p == "caa";
        assert Parent(p) == "ca";
      }
    }
  }

  /** The test words, decided char by char. */
  predicate IsTestWord(p: Path) {
    || (|p| == 1 && (p[0] == 'a' || p[0] == 'c'))
    || (|p| == 2 && p[0] == 'a' && p[1] == 'b')
    || (|p| == 3 && p[0] == 'b' && p[1] == 'a' && p[2] == 'b')
    || (|p| == 3 && p[0] == 'b' && p[1] == 'c' && p[2] == 'a')
    || (|p| == 3 && p[0] == 'c' && p[1] == 'a' && p[2] == 'a')
  }

  /** The stored words of the test trie are exactly a, ab, bab, c, bca and caa. */
  lemma TestTrieWords(p: Path)
    ensures IsWord(TestTrie(), p) <==> IsTestWord(p)
  {
    if IsTestWord(p) {
      if |p| == 1 {
        assert p == [p[0]];
      } else if |p| == 2 {
        assert p == "ab";
      } else {
        assert p == [p[0], p[1], p[2]];
      }
    }
  }

  /** The nodes of the test trie, decided char by char: the words and their prefixes. */
  predicate IsTestNode(p: Path) {
    || p == []
    || IsTestWord(p)
    || (|p| == 1 && p[0] == 'b')
    || (|p| == 2 && p[0] == 'b' && (p[1] == 'a' || p[1] == 'c'))
    || (|p| == 2 && p[0] == 'c' && p[1] == 'a')
  }

  /** The nodes of the test trie are exactly '', a, ab, b, ba, bab, bc, bca, c, ca and caa. */
  lemma TestTrieNodes(p: Path)
    ensures p in TestTrie().nodes <==> IsTestNode(p)
  {
    if IsTestNode(p) {
      if |p| == 1 {
        assert p == [p[0]];
      } else if |p| == 2 {
        assert p == [p[0], p[1]];
      } else if |p| == 3 {
        assert p == [p[0], p[1], p[2]];
      }
    }
  }

  // The references of the links, restated over IsTestNode and IsTestWord so
  // that concrete arguments evaluate char by char, each proved equal to the
  // general reference on the test trie.

  /** LongestTrieSuffix on the test trie. */
  function TestLongest(s: Path): Path
    decreases |s|
  {
    if IsTestNode(s) then s else TestLongest(s[1..])
  }

  /** TestLongest(s + [c]), recursing on `s` so that the concatenation is never sliced. */
  function TestNext(s: Path, c: char): Path
    decreases |s|
  {
    if IsTestNode(s + [c]) then s + [c]
    else if s == [] then []
    else TestNext(s[1..], c)
  }

  /** LongestWordSuffix on the test trie. */
  function TestLongestWord(s: Path): Option<Path>
    decreases |s|
  {
    if IsTestWord(s) then Some(s) else if s == [] then None else TestLongestWord(s[1..])
  }

  /** AllWordSuffixes on the test trie. */
  function TestWordSuffixes(s: Path): seq<Path>
    decreases |s|
  {
    var head := if IsTestWord(s) then [s] else [];
    if s == [] then head else head + TestWordSuffixes(s[1..])
  }

  lemma {:induction false} TestLongestIsLongest(s: Path)
    ensures Valid(TestTrie())
    ensures LongestTrieSuffix(TestTrie(), s) == TestLongest(s)
    decreases |s|
  {
    TestTrieValid();
    TestTrieNodes(s);
    if !IsTestNode(s) {
      TestLongestIsLongest(s[1..]);
    }
  }

  lemma {:induction false} TestNextIsLongest(s: Path, c: char)
    ensures TestLongest(s + [c]) == TestNext(s, c)
    decreases |s|
  {
    if !IsTestNode(s + [c]) {
      if s == [] {
        assert (s + [c])[1..] == [];
      } else {
        assert (s + [c])[1..] == s[1..] + [c];
        TestNextIsLongest(s[1..], c);
      }
    }
  }

  lemma {:induction false} TestLongestWordIsLongest(s: Path)
    ensures LongestWordSuffix(TestTrie(), s) == TestLongestWord(s)
    decreases |s|
  {
    TestTrieWords(s);
    if !IsTestWord(s) && s != [] {
      TestLongestWordIsLongest(s[1..]);
    }
  }

  lemma {:induction false} TestWordSuffixesAreAll(s: Path)
    ensures AllWordSuffixes(TestTrie(), s) == TestWordSuffixes(s)
    decreases |s|
  {
    TestTrieWords(s);
    if s != [] {
      TestWordSuffixesAreAll(s[1..]);
    }
  }

  // ---------------------------------------------------------------------------
  // Construction: ACDictionary({'a', 'ab', 'bab', 'c', 'bca', 'caa'})
  // ---------------------------------------------------------------------------

  /** The words of TestACDictionary.setup, in one of the orders iterating a Python set may give. */
  const TestWords := ["a", "ab", "bab", "c", "bca", "caa"]

  /** Every prefix of a test word is a node of the test trie. */
  lemma TestPrefixesAreNodes(q: Path)
    requires q in AllPrefixes(SetOf(TestWords))
    ensures q in TestTrie().nodes
  {
    if q != Root {
      var w, k :| w in SetOf(TestWords) && 0 <= k <= |w| && q == w[..k];
      TestTrieValid();
      TestTrieWords(w);
      PrefixClosed(TestTrie(), w, k);
    }
  }

  /** Every node of the test trie is a prefix of a test word. */
  lemma TestNodesArePrefixes(q: Path)
    requires q in TestTrie().nodes
    ensures q in AllPrefixes(SetOf(TestWords))
  {
    assert "bab"[..1] == "b" && "bab"[..2] == "ba" && "bca"[..2] == "bc" && "caa"[..2] == "ca";
    assert forall w :: w in TestWords ==> w == w[..|w|];
  }

  lemma TestPrefixes()
    ensures AllPrefixes(SetOf(TestWords)) == TestTrie().nodes.Keys
  {
    forall q | q in AllPrefixes(SetOf(TestWords))
      ensures q in TestTrie().nodes
    {
      TestPrefixesAreNodes(q);
    }
    forall q | q in TestTrie().nodes
      ensures q in AllPrefixes(SetOf(TestWords))
    {
      TestNodesArePrefixes(q);
    }
  }

  lemma TestWordSet()
    ensures Words(TestTrie()) == SetOf(TestWords)
  {
    forall w
      ensures w in Words(TestTrie()) <==> w in SetOf(TestWords)
    {
      TestTrieWords(w);
    }
  }

  lemma TestWordCount()
    ensures |SetOf(TestWords)| == 6
  {
    assert SetOf(TestWords) == {"a", "ab", "bab", "c", "bca", "caa"};
  }

  /** Whatever satisfies Build's promise for the test words is the test trie with `_len` 6. */
  lemma TestBuilt(d: ACDictionary)
    requires Valid(d.trie) && Words(d.trie) == SetOf(TestWords)
    requires d.len == |SetOf(TestWords)| && d.trie.nodes.Keys == AllPrefixes(SetOf(TestWords))
    ensures d == ACDictionary(TestTrie(), 6)
  {
    TestTrieValid();
    TestPrefixes();
    TestWordSet();
    TestWordCount();
    TrieDetermined(d.trie, TestTrie());
  }

  /** TestACDictionary.setup and test_len: the test words build the test trie, and `len(acd)` is 6. */
  method TestBuild() returns (r: Result<ACDictionary, Error>)
    ensures r == Success(ACDictionary(TestTrie(), 6))
  {
    r := Build(TestWords);
    assert [] !in TestWords;
    TestBuilt(r.value);
  }

  // ---------------------------------------------------------------------------
  // Enumeration: test_init (_nodes) and test_iter (__iter__)
  // ---------------------------------------------------------------------------

  /** The nodes in the order test_init expects from `_nodes(sort=True)`. */
  const SortedTestNodes := ["", "a", "ab", "b", "ba", "bab", "bc", "bca", "c", "ca", "caa"]

  /** The words in the order test_iter expects from `list(acd)`. */
  const SortedTestWords := ["a", "ab", "bab", "bca", "c", "caa"]

  lemma SortedTestNodesSorted()
    ensures Sorted(SortedTestNodes)
  {
    var s := SortedTestNodes;
    assert LexLess(s[0], s[1]);
    assert LexLess(s[1], s[2]);
    assert LexLess(s[2], s[3]);
    assert LexLess(s[3], s[4]);
    assert LexLess(s[4], s[5]);
    assert LexLess(s[5], s[6]);
    assert LexLess(s[6], s[7]);
    assert LexLess(s[7], s[8]);
    assert LexLess(s[8], s[9]);
    assert LexLess(s[9], s[10]);
    SortedOfNeighbours(SortedTestNodes);
  }

  lemma SortedTestWordsSorted()
    ensures Sorted(SortedTestWords)
  {
  }

  lemma TestNodesListed(q: Path)
    ensures q in TestTrie().nodes <==> q in SortedTestNodes
  {
  }

  /** test_init of TestACDictionary: the sorted depth-first walk lists the nodes in this order. */
  method TestNodes() returns (ns: seq<Path>)
    ensures ns == SortedTestNodes
  {
    TestTrieValid();
    ns := Nodes(TestTrie(), true, p => []);
    forall q
      ensures q in ns <==> q in SortedTestNodes
    {
      TestNodesListed(q);
    }
    SortedTestNodesSorted();
    SortedUnique(ns, SortedTestNodes);
  }

  /** test_iter: `list(acd)` is `sorted(words)`. */
  method TestIter() returns (words: seq<string>)
    ensures words == SortedTestWords
  {
    TestTrieValid();
    words := Iter(TestTrie());
    forall w
      ensures w in words <==> w in SortedTestWords
    {
      TestTrieWords(w);
    }
    SortedTestWordsSorted();
    SortedUnique(words, SortedTestWords);
  }

  // ---------------------------------------------------------------------------
  // Links: test_suffix, test_dict_suffix, test_get_next and test_get_words
  // ---------------------------------------------------------------------------
  // Each test is transcribed as a table of (node, expected) rows. The rows are
  // evaluated on the char-level definitions above, and the general lemmas of
  // the links module carry them over to the source's recursions.

  /** test_suffix: each non-root node and the node its `suffix` must be. */
  const SuffixTable: seq<(Path, Path)> :=
    [("a", ""), ("ab", "b"), ("b", ""), ("ba", "a"), ("bab", "ab"),
     ("bc", "c"), ("bca", "ca"), ("c", ""), ("ca", "a"), ("caa", "a")]

  lemma SuffixRows()
    ensures forall i :: 0 <= i < |SuffixTable| ==>
      IsTestNode(SuffixTable[i].0) && SuffixTable[i].0 != [] && TestLongest(SuffixTable[i].0[1..]) == SuffixTable[i].1
  {
  }

  /** The suffix link of a node of the test trie, by SuffixIsLongest. */
  lemma TestSuffixIs(p: Path)
    requires IsTestNode(p) && p != []
    ensures Valid(TestTrie()) && p in TestTrie().nodes
    ensures Suffix(TestTrie(), p) == TestLongest(p[1..])
  {
    TestTrieNodes(p);
    TestLongestIsLongest(p[1..]);
    SuffixIsLongest(TestTrie(), p);
  }

  /** test_suffix: the root's suffix is the root, and every other node's is as the table says. */
  lemma TestSuffix()
    ensures Valid(TestTrie())
    ensures Suffix(TestTrie(), Root) == Root
    ensures forall i :: 0 <= i < |SuffixTable| ==>
      SuffixTable[i].0 in TestTrie().nodes && Suffix(TestTrie(), SuffixTable[i].0) == SuffixTable[i].1
  {
    TestTrieValid();
    SuffixRows();
    forall i | 0 <= i < |SuffixTable|
      ensures SuffixTable[i].0 in TestTrie().nodes && Suffix(TestTrie(), SuffixTable[i].0) == SuffixTable[i].1
    {
      TestSuffixIs(SuffixTable[i].0);
    }
  }

  /** test_dict_suffix: each non-root node and its expected `dict_suffix`. */
  const DictSuffixTable: seq<(Path, Option<Path>)> :=
    [("a", None), ("ab", None), ("b", None), ("ba", Some("a")), ("bab", Some("ab")),
     ("bc", Some("c")), ("bca", Some("a")), ("c", None), ("ca", Some("a")), ("caa", Some("a"))]

  lemma DictSuffixRows()
    ensures forall i :: 0 <= i < |DictSuffixTable| ==>
      IsTestNode(DictSuffixTable[i].0) && DictSuffixTable[i].0 != [] &&
      TestLongestWord(DictSuffixTable[i].0[1..]) == DictSuffixTable[i].1
  {
  }

  /** The dictionary suffix link of a node of the test trie, by DictSuffixIsLongest. */
  lemma TestDictSuffixIs(p: Path)
    requires IsTestNode(p) && p != []
    ensures Valid(TestTrie()) && p in TestTrie().nodes
    ensures DictSuffix(TestTrie(), p) == TestLongestWord(p[1..])
  {
    TestTrieValid();
    TestTrieNodes(p);
    TestLongestWordIsLongest(p[1..]);
    DictSuffixIsLongest(TestTrie(), p);
  }

  /** test_dict_suffix: the root's `dict_suffix` is None, and every other node's is as the table says. */
  lemma TestDictSuffix()
    ensures Valid(TestTrie())
    ensures DictSuffix(TestTrie(), Root) == None
    ensures forall i :: 0 <= i < |DictSuffixTable| ==>
      DictSuffixTable[i].0 in TestTrie().nodes &&
      DictSuffix(TestTrie(), DictSuffixTable[i].0) == DictSuffixTable[i].1
  {
    TestTrieValid();
    DictSuffixRows();
    forall i | 0 <= i < |DictSuffixTable|
      ensures DictSuffixTable[i].0 in TestTrie().nodes &&
        DictSuffix(TestTrie(), DictSuffixTable[i].0) == DictSuffixTable[i].1
    {
      TestDictSuffixIs(DictSuffixTable[i].0);
    }
  }

  /** test_get_next: every node with each of a, b, c and the unknown x, and the expected next node. */
  const GetNextTable: seq<(Path, char, Path)> :=
    [("", 'a', "a"), ("", 'b', "b"), ("", 'c', "c"), ("", 'x', ""),
     ("a", 'a', "a"), ("a", 'b', "ab"), ("a", 'c', "c"), ("a", 'x', ""),
     ("ab", 'a', "ba"), ("ab", 'b', "b"), ("ab", 'c', "bc"), ("ab", 'x', ""),
     ("b", 'a', "ba"), ("b", 'b', "b"), ("b", 'c', "bc"), ("b", 'x', ""),
     ("ba", 'a', "a"), ("ba", 'b', "bab"), ("ba", 'c', "c"), ("ba", 'x', ""),
     ("bab", 'a', "ba"), ("bab", 'b', "b"), ("bab", 'c', "bc"), ("bab", 'x', ""),
     ("bc", 'a', "bca"), ("bc", 'b', "b"), ("bc", 'c', "c"), ("bc", 'x', ""),
     ("bca", 'a', "caa"), ("bca", 'b', "ab"), ("bca", 'c', "c"), ("bca", 'x', ""),
     ("c", 'a', "ca"), ("c", 'b', "b"), ("c", 'c', "c"), ("c", 'x', ""),
     ("ca", 'a', "caa"), ("ca", 'b', "ab"), ("ca", 'c', "c"), ("ca", 'x', ""),
     ("caa", 'a', "a"), ("caa", 'b', "ab"), ("caa", 'c', "c"), ("caa", 'x', "")]

  /** The rows for the root, a and ab. */
  lemma GetNextRows0()
    ensures forall i :: 0 <= i < 12 ==>
      IsTestNode(GetNextTable[i].0) && TestNext(GetNextTable[i].0, GetNextTable[i].1) == GetNextTable[i].2
  {
  }

  /** The rows for b, ba and bab. */
  lemma GetNextRows1()
    ensures forall i :: 12 <= i < 24 ==>
      IsTestNode(GetNextTable[i].0) && TestNext(GetNextTable[i].0, GetNextTable[i].1) == GetNextTable[i].2
  {
  }

  /** The rows for bc, bca and c. */
  lemma GetNextRows2()
    ensures forall i :: 24 <= i < 36 ==>
      IsTestNode(GetNextTable[i].0) && TestNext(GetNextTable[i].0, GetNextTable[i].1) == GetNextTable[i].2
  {
  }

  /** The rows for ca and caa. */
  lemma GetNextRows3()
    ensures forall i :: 36 <= i < |GetNextTable| ==>
      IsTestNode(GetNextTable[i].0) && TestNext(GetNextTable[i].0, GetNextTable[i].1) == GetNextTable[i].2
  {
  }

  /** The transition from a node of the test trie, by GetNextIsLongest. */
  lemma TestGetNextIs(p: Path, c: char)
    requires IsTestNode(p)
    ensures Valid(TestTrie()) && p in TestTrie().nodes
    ensures GetNext(TestTrie(), p, c) == TestNext(p, c)
  {
    TestNextIsLongest(p, c);
    TestTrieNodes(p);
    TestLongestIsLongest(p + [c]);
    GetNextIsLongest(TestTrie(), p, c);
  }

  /** test_get_next: each of the 44 transitions is as the table says. */
  lemma TestGetNext()
    ensures Valid(TestTrie())
    ensures forall i :: 0 <= i < |GetNextTable| ==>
      GetNextTable[i].0 in TestTrie().nodes &&
      GetNext(TestTrie(), GetNextTable[i].0, GetNextTable[i].1) == GetNextTable[i].2
  {
    TestTrieValid();
    GetNextRows0();
    GetNextRows1();
    GetNextRows2();
    GetNextRows3();
    forall i | 0 <= i < |GetNextTable|
      ensures GetNextTable[i].0 in TestTrie().nodes &&
        GetNext(TestTrie(), GetNextTable[i].0, GetNextTable[i].1) == GetNextTable[i].2
    {
      TestGetNextIs(GetNextTable[i].0, GetNextTable[i].1);
    }
  }

  /** test_get_words: every node and the word nodes `get_words` must yield, in order. */
  const GetWordsTable: seq<(Path, seq<Path>)> :=
    [("", []), ("a", ["a"]), ("ab", ["ab"]), ("b", []), ("ba", ["a"]), ("bab", ["bab", "ab"]),
     ("bc", ["c"]), ("bca", ["bca", "a"]), ("c", ["c"]), ("ca", ["a"]), ("caa", ["caa", "a"])]

  lemma GetWordsRows()
    ensures forall i :: 0 <= i < |GetWordsTable| ==>
      IsTestNode(GetWordsTable[i].0) && TestWordSuffixes(GetWordsTable[i].0) == GetWordsTable[i].1
  {
  }

  /** The words reported at a node of the test trie, by GetWordsIsAll. */
  lemma TestGetWordsIs(p: Path)
    requires IsTestNode(p)
    ensures Valid(TestTrie()) && p in TestTrie().nodes
    ensures GetWords(TestTrie(), p) == TestWordSuffixes(p)
  {
    TestTrieValid();
    TestTrieNodes(p);
    TestWordSuffixesAreAll(p);
    GetWordsIsAll(TestTrie(), p);
  }

  /** test_get_words: each node yields the words the table lists, longest first. */
  lemma TestGetWords()
    ensures Valid(TestTrie())
    ensures forall i :: 0 <= i < |GetWordsTable| ==>
      GetWordsTable[i].0 in TestTrie().nodes && GetWords(TestTrie(), GetWordsTable[i].0) == GetWordsTable[i].1
  {
    TestTrieValid();
    GetWordsRows();
    forall i | 0 <= i < |GetWordsTable|
      ensures GetWordsTable[i].0 in TestTrie().nodes && GetWords(TestTrie(), GetWordsTable[i].0) == GetWordsTable[i].1
    {
      TestGetWordsIs(GetWordsTable[i].0);
    }
  }

  // ---------------------------------------------------------------------------
  // Scanning: test_findall and test_finditer
  // ---------------------------------------------------------------------------

  /** The text both scanning tests search. */
  const TestText: string := "abccabx"

  /** The expected output of `_find`: a, ab, c, c, a, ab, ending after offsets 1 to 6. */
  const TestHits := [Hit(1, "a"), Hit(2, "ab"), Hit(3, "c"), Hit(4, "c"), Hit(5, "a"), Hit(6, "ab")]

  /** The expected matches of `finditer`, as (start, end) over the test text. */
  const TestMatches :=
    [Match(TestText, 0, 1), Match(TestText, 0, 2), Match(TestText, 2, 3),
     Match(TestText, 3, 4), Match(TestText, 4, 5), Match(TestText, 4, 6)]

  /** The words ending after each prefix of the test text, longest first. */
  lemma TextWordSuffixes()
    ensures TestWordSuffixes("a") == ["a"] && TestWordSuffixes("ab") == ["ab"]
    ensures TestWordSuffixes("abc") == ["c"] && TestWordSuffixes("abcc") == ["c"]
    ensures TestWordSuffixes("abcca") == ["a"] && TestWordSuffixes("abccab") == ["ab"]
    ensures TestWordSuffixes("abccabx") == []
  {
  }

  /** The reference occurrences of the test words in the test text. */
  lemma TestOccurrences()
    ensures Occurrences(TestTrie(), TestText) == TestHits
  {
    var t := TestTrie();
    TextWordSuffixes();
    TestWordSuffixesAreAll("a");
    assert Parent("a") == [];
    assert Occurrences(t, "a") == [Hit(1, "a")];
    TestWordSuffixesAreAll("ab");
    assert Parent("ab") == "a";
    assert Occurrences(t, "ab") == [Hit(1, "a"), Hit(2, "ab")];
    TestWordSuffixesAreAll("abc");
    assert Parent("abc") == "ab";
    assert Occurrences(t, "abc") == [Hit(1, "a"), Hit(2, "ab"), Hit(3, "c")];
    TestWordSuffixesAreAll("abcc");
    assert Parent("abcc") == "abc";
    assert Occurrences(t, "abcc") == [Hit(1, "a"), Hit(2, "ab"), Hit(3, "c"), Hit(4, "c")];
    TestWordSuffixesAreAll("abcca");
    assert Parent("abcca") == "abcc";
    assert Occurrences(t, "abcca") == [Hit(1, "a"), Hit(2, "ab"), Hit(3, "c"), Hit(4, "c"), Hit(5, "a")];
    TestWordSuffixesAreAll("abccab");
    assert Parent("abccab") == "abcca";
    TestWordSuffixesAreAll("abccabx");
    assert Parent("abccabx") == "abccab";
  }

  /**
   * Once the hits of a scan are known, so are the matches of `finditer`:
   * the i-th starts `len(word)` before the i-th hit's end.
   */
  lemma MatchesOfHits(t: Trie, text: string, hits: seq<Hit>)
    requires Valid(t) && Occurrences(t, text) == hits
    ensures |Matches(t, text)| == |hits|
    ensures forall i :: 0 <= i < |hits| ==>
      Matches(t, text)[i] == Match(text, hits[i].end - |hits[i].word|, hits[i].end)
  {
    forall i | 0 <= i < |hits|
      ensures Matches(t, text)[i] == Match(text, hits[i].end - |hits[i].word|, hits[i].end)
    {
      MatchOfHit(t, text, i);
    }
  }

  /** Matches built that way from the expected hits are the expected matches. */
  lemma TestMatchesOfHits(ms: seq<Match>)
    requires |ms| == |TestHits|
    requires forall i :: 0 <= i < |TestHits| ==>
      ms[i] == Match(TestText, TestHits[i].end - |TestHits[i].word|, TestHits[i].end)
    ensures ms == TestMatches
  {
  }

  lemma TestMatchesOfScan()
    ensures Valid(TestTrie())
    ensures Matches(TestTrie(), TestText) == TestMatches
  {
    TestTrieValid();
    TestOccurrences();
    MatchesOfHits(TestTrie(), TestText, TestHits);
    TestMatchesOfHits(Matches(TestTrie(), TestText));
  }

  /** The expected strings of the matches, which are also what `findall` returns. */
  const TestFound := ["a", "ab", "c", "c", "a", "ab"]

  /** `str(match)` of each expected match. */
  lemma TestMatchStrs()
    ensures |TestMatches| == |TestFound|
    ensures forall i :: 0 <= i < |TestMatches| ==> MatchStr(TestMatches[i]) == TestFound[i]
  {
    assert TestText[0..1] == "a" && TestText[0..2] == "ab" && TestText[2..3] == "c";
    assert TestText[3..4] == "c" && TestText[4..5] == "a" && TestText[4..6] == "ab";
  }

  /** test_findall: `acd.findall('abccabx')` is a, ab, c, c, a, ab. */
  method TestFindAll() returns (words: seq<string>)
    ensures words == TestFound
  {
    TestMatchesOfScan();
    words := FindAll(TestTrie(), TestText);
    TestMatchStrs();
  }

  /**
   * test_finditer: `acd.finditer('abccabx')` yields the matches (0, 1),
   * (0, 2), (2, 3), (3, 4), (4, 5) and (4, 6), whose strings are a, ab, c, c,
   * a and ab.
   */
  method TestFindIter() returns (ms: seq<Match>)
    ensures ms == TestMatches
    ensures forall i :: 0 <= i < |ms| ==> MatchStr(ms[i]) == TestFound[i]
  {
    TestMatchesOfScan();
    ms := FindIter(TestTrie(), TestText);
    TestMatchStrs();
  }
}
