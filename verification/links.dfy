/**
 * The links of the Aho-Corasick automaton over a completed trie:
 * `ACNode.suffix` (failure link), `ACNode.get_next` / `ACRootNode.get_next`
 * (transition), `ACNode.dict_suffix` (output link) and `ACNode.get_words`.
 *
 * Each is first written as the source's own recursion, then tied by a lemma
 * to an independent declarative reference: the longest suffix that is a trie
 * node, the longest suffix that is a word, and the list of all word suffixes.
 * The cached_property memoisation is not modelled: every link is a pure
 * function of the finished trie.
 */
module Links {
  import opened Wrappers
  import opened Paths
  import opened Trie

  // ---------------------------------------------------------------------------
  // Reference definitions
  // ---------------------------------------------------------------------------

  /** `r` is the longest suffix of `s` that is a node of `t`. */
  ghost predicate IsLongestTrieSuffix(t: Trie, s: Path, r: Path) {
    && r in t.nodes
    && IsSuffix(r, s)
    && forall k :: 0 <= k <= |s| && s[k..] in t.nodes ==> |s| - k <= |r|
  }

  /** The longest suffix of `s` that is a trie node, found by dropping symbols from the front. */
  function LongestTrieSuffix(t: Trie, s: Path): (r: Path)
    requires Valid(t)
    ensures r in t.nodes && IsSuffix(r, s)
    decreases |s|
  {
    if s in t.nodes then s
    else
      var r := LongestTrieSuffix(t, s[1..]);
      assert s[1..][|s| - 1 - |r|..] == s[|s| - |r|..];
      r
  }

  /** LongestTrieSuffix meets its declarative description. */
  lemma {:induction false} LongestTrieSuffixIsLongest(t: Trie, s: Path)
    requires Valid(t)
    ensures IsLongestTrieSuffix(t, s, LongestTrieSuffix(t, s))
    decreases |s|
  {
    if s !in t.nodes {
      LongestTrieSuffixIsLongest(t, s[1..]);
      assert forall k :: 1 <= k <= |s| ==> s[k..] == s[1..][k - 1..];
    }
  }

  /** There is only one longest trie suffix. */
  lemma LongestTrieSuffixUnique(t: Trie, s: Path, a: Path, b: Path)
    requires IsLongestTrieSuffix(t, s, a) && IsLongestTrieSuffix(t, s, b)
    ensures a == b
  {
    assert s[|s| - |a|..] in t.nodes && s[|s| - |b|..] in t.nodes;
    SuffixUnique(a, b, s);
  }

  /**
   * Appending a symbol: the longest trie suffix of `s + [c]` only depends on
   * the longest trie suffix of `s`. This is what lets a single node stand for
   * everything read so far.
   */
  lemma ExtendLongest(t: Trie, s: Path, c: char)
    requires Valid(t)
    ensures LongestTrieSuffix(t, s + [c]) == LongestTrieSuffix(t, LongestTrieSuffix(t, s) + [c])
  {
    var r := LongestTrieSuffix(t, s);
    var m := LongestTrieSuffix(t, r + [c]);
    var sc := s + [c];
    LongestTrieSuffixIsLongest(t, sc);
    LongestTrieSuffixIsLongest(t, r + [c]);
    SuffixAppend(r, s, c);
    SuffixTrans(m, r + [c], sc);
    forall k | 0 <= k <= |sc| && sc[k..] in t.nodes
      ensures |sc| - k <= |m|
    {
      ExtendedNodeFits(t, s, c, sc[k..]);
    }
    LongestTrieSuffixUnique(t, sc, LongestTrieSuffix(t, sc), m);
  }

  /** A trie node that is a suffix of `s + [c]` is a suffix of `LongestTrieSuffix(t, s) + [c]`. */
  lemma ExtendedNodeFits(t: Trie, s: Path, c: char, q: Path)
    requires Valid(t) && q in t.nodes && IsSuffix(q, s + [c])
    ensures |q| <= |LongestTrieSuffix(t, LongestTrieSuffix(t, s) + [c])|
  {
    var r := LongestTrieSuffix(t, s);
    if q != [] {
      SuffixOfAppend(q, s, c);
      var pq := Parent(q);
      LongestTrieSuffixIsLongest(t, s);
      LongestBound(t, s, r, pq);
      SuffixOfSuffix(pq, r, s);
      SuffixAppend(pq, r, c);
      assert q == pq + [c];
      var rc := r + [c];
      assert IsSuffix(q, rc);
      var m := LongestTrieSuffix(t, rc);
      LongestTrieSuffixIsLongest(t, rc);
      LongestBound(t, rc, m, q);
    }
  }

  /** No trie node that is a suffix of `s` is longer than the longest one. */
  lemma LongestBound(t: Trie, s: Path, r: Path, q: Path)
    requires IsLongestTrieSuffix(t, s, r) && q in t.nodes && IsSuffix(q, s)
    ensures |q| <= |r|
  {
    assert s[|s| - |q|..] in t.nodes;
  }

  /** The longest suffix of `s` that is a dictionary word, or None. */
  function LongestWordSuffix(t: Trie, s: Path): (r: Option<Path>)
    ensures r.Some? ==> IsWord(t, r.value) && IsSuffix(r.value, s)
    decreases |s|
  {
    if IsWord(t, s) then Some(s)
    else if s == [] then None
    else
      var r := LongestWordSuffix(t, s[1..]);
      assert r.Some? ==> s[1..][|s| - 1 - |r.value|..] == s[|s| - |r.value|..];
      r
  }

  /** LongestWordSuffix meets its declarative description: no word suffix is longer, and None means none exists. */
  lemma {:induction false} LongestWordSuffixIsLongest(t: Trie, s: Path)
    ensures LongestWordSuffix(t, s).Some? ==>
      forall k :: 0 <= k <= |s| && IsWord(t, s[k..]) ==> |s| - k <= |LongestWordSuffix(t, s).value|
    ensures LongestWordSuffix(t, s).None? ==> forall k :: 0 <= k <= |s| ==> !IsWord(t, s[k..])
    decreases |s|
  {
    if !IsWord(t, s) && s != [] {
      LongestWordSuffixIsLongest(t, s[1..]);
      assert forall k :: 1 <= k <= |s| ==> s[k..] == s[1..][k - 1..];
    }
  }

  /** Every dictionary word that is a suffix of `s`, longest first. */
  function AllWordSuffixes(t: Trie, s: Path): seq<Path>
    decreases |s|
  {
    var head := if IsWord(t, s) then [s] else [];
    if s == [] then head else head + AllWordSuffixes(t, s[1..])
  }

  /**
   * AllWordSuffixes lists exactly the word suffixes of `s`, each once, in
   * strictly decreasing length.
   */
  lemma {:induction false} AllWordSuffixesExact(t: Trie, s: Path)
    ensures forall i :: 0 <= i < |AllWordSuffixes(t, s)| ==>
      IsWord(t, AllWordSuffixes(t, s)[i]) && IsSuffix(AllWordSuffixes(t, s)[i], s)
    ensures forall i, j :: 0 <= i < j < |AllWordSuffixes(t, s)| ==>
      |AllWordSuffixes(t, s)[i]| > |AllWordSuffixes(t, s)[j]|
    ensures forall k :: 0 <= k <= |s| && IsWord(t, s[k..]) ==> s[k..] in AllWordSuffixes(t, s)
    decreases |s|
  {
    if s != [] {
      var rest := AllWordSuffixes(t, s[1..]);
      AllWordSuffixesExact(t, s[1..]);
      assert forall k :: 1 <= k <= |s| ==> s[k..] == s[1..][k - 1..];
      assert forall i :: 0 <= i < |rest| ==> s[1..][|s| - 1 - |rest[i]|..] == s[|s| - |rest[i]|..];
      assert s[0..] == s;
    }
  }

  // ---------------------------------------------------------------------------
  // The source's recursive definitions
  // ---------------------------------------------------------------------------

  /**
   * ACNode.suffix: the root's parent is the root, which is falsy, so the
   * root and its children link to the root; any deeper node links to
   * `parent.suffix.get_next(char)`.
   */
  function Suffix(t: Trie, p: Path): (r: Path)
    requires Valid(t) && p in t.nodes
    ensures r in t.nodes && IsSuffix(r, p)
    ensures p != Root ==> |r| < |p|
    decreases |p|, 0
  {
    if p == Root then Root
    else
      var parent := Parent(p);
      if parent == Root then parent
      else
        var s := Suffix(t, parent);
        var r := GetNext(t, s, Last(p));
        SuffixAppend(s, parent, Last(p));
        ParentLast(p);
        SuffixTrans(r, s + [Last(p)], p);
        r
  }

  /**
   * ACNode.get_next and its override ACRootNode.get_next: the child for `c`
   * when there is one; otherwise the root stays at the root and any other
   * node retries from its suffix.
   */
  function GetNext(t: Trie, p: Path, c: char): (r: Path)
    requires Valid(t) && p in t.nodes
    ensures r in t.nodes && IsSuffix(r, p + [c])
    decreases |p|, 1
  {
    if p == Root then
      if p + [c] in t.nodes then p + [c] else p
    else if p + [c] in t.nodes then p + [c]
    else
      var s := Suffix(t, p);
      var r := GetNext(t, s, c);
      SuffixAppend(s, p, c);
      SuffixTrans(r, s + [c], p + [c]);
      r
  }

  /**
   * ACNode.dict_suffix: the suffix if it is a word, otherwise the suffix's
   * own dict_suffix; the root's is preset to None.
   */
  function DictSuffix(t: Trie, p: Path): (r: Option<Path>)
    requires Valid(t) && p in t.nodes
    ensures r.Some? ==> IsWord(t, r.value) && IsSuffix(r.value, p) && |r.value| < |p|
    decreases |p|
  {
    if p == Root then None
    else
      var s := Suffix(t, p);
      if t.nodes[s].isWord then Some(s)
      else
        match DictSuffix(t, s)
        case None => None
        case Some(d) => SuffixTrans(d, s, p); Some(d)
  }

  /**
   * ACNode.get_words: starting at the node itself, report each word node and
   * move to its dict_suffix, until the node is None or the (falsy) root.
   */
  function GetWords(t: Trie, p: Path): (r: seq<Path>)
    requires Valid(t) && p in t.nodes
    ensures forall i :: 0 <= i < |r| ==> IsWord(t, r[i]) && |r[i]| <= |p|
    decreases |p|
  {
    if p == Root then []
    else
      (if t.nodes[p].isWord then [p] else []) +
      match DictSuffix(t, p)
      case None => []
      case Some(d) => GetWords(t, d)
  }

  /** The chain root-ward along suffix links, from `p` to the root. */
  function SuffixChain(t: Trie, p: Path): (r: seq<Path>)
    requires Valid(t) && p in t.nodes
    ensures 1 <= |r| <= |p| + 1 && r[0] == p && r[|r| - 1] == Root
    ensures forall i :: 0 <= i < |r| ==> r[i] in t.nodes
    ensures forall i :: 0 < i < |r| ==> r[i] == Suffix(t, r[i - 1]) && |r[i]| < |r[i - 1]|
    decreases |p|
  {
    if p == Root then [Root] else [p] + SuffixChain(t, Suffix(t, p))
  }

  // ---------------------------------------------------------------------------
  // The recursive definitions meet the references
  // ---------------------------------------------------------------------------

  /** suffix(n) is the longest proper suffix of n's path that is a trie node. */
  lemma {:induction false} SuffixIsLongest(t: Trie, p: Path)
    requires Valid(t) && p in t.nodes && p != Root
    ensures Suffix(t, p) == LongestTrieSuffix(t, p[1..])
    decreases |p|, 0
  {
    var parent := Parent(p);
    if parent != Root {
      var c := Last(p);
      SuffixIsLongest(t, parent);
      GetNextIsLongest(t, Suffix(t, parent), c);
      ExtendLongest(t, parent[1..], c);
      DropFirstOfParent(p);
    }
  }

  /** get_next(n, c) is the longest suffix of n's path + [c] that is a trie node. */
  lemma {:induction false} GetNextIsLongest(t: Trie, p: Path, c: char)
    requires Valid(t) && p in t.nodes
    ensures GetNext(t, p, c) == LongestTrieSuffix(t, p + [c])
    decreases |p|, 1
  {
    if p + [c] !in t.nodes {
      if p == Root {
        assert (p + [c])[1..] == [];
      } else {
        DropFirstOfAppend(p, c);
        SuffixIsLongest(t, p);
        GetNextIsLongest(t, Suffix(t, p), c);
        ExtendLongest(t, p[1..], c);
      }
    }
  }

  /** Every word that is a suffix of `u` is a suffix of u's longest trie suffix. */
  lemma {:induction false} LongestWordWithinTrieSuffix(t: Trie, u: Path)
    requires Valid(t)
    ensures LongestWordSuffix(t, u) == LongestWordSuffix(t, LongestTrieSuffix(t, u))
    decreases |u|
  {
    if u !in t.nodes {
      LongestWordWithinTrieSuffix(t, u[1..]);
    }
  }

  /** dict_suffix(n) is the longest proper suffix of n's path that is a word; None for the root. */
  lemma {:induction false} DictSuffixIsLongest(t: Trie, p: Path)
    requires Valid(t) && p in t.nodes
    ensures DictSuffix(t, p) == if p == Root then None else LongestWordSuffix(t, p[1..])
    decreases |p|
  {
    if p != Root {
      var s := Suffix(t, p);
      SuffixIsLongest(t, p);
      LongestWordWithinTrieSuffix(t, p[1..]);
      if !IsWord(t, s) {
        DictSuffixIsLongest(t, s);
      }
    }
  }

  /** Listing all word suffixes can skip straight to the longest one. */
  lemma {:induction false} AllWordSuffixesFromLongest(t: Trie, u: Path)
    ensures AllWordSuffixes(t, u) ==
      match LongestWordSuffix(t, u)
      case None => []
      case Some(d) => AllWordSuffixes(t, d)
    decreases |u|
  {
    if !IsWord(t, u) && u != [] {
      AllWordSuffixesFromLongest(t, u[1..]);
    }
  }

  /** The word suffixes of `u` are those of its longest trie suffix. */
  lemma {:induction false} AllWordSuffixesWithinTrieSuffix(t: Trie, u: Path)
    requires Valid(t)
    ensures AllWordSuffixes(t, u) == AllWordSuffixes(t, LongestTrieSuffix(t, u))
    decreases |u|
  {
    if u !in t.nodes {
      AllWordSuffixesWithinTrieSuffix(t, u[1..]);
    }
  }

  /** get_words(n) lists exactly the word suffixes of n's path, longest first. */
  lemma {:induction false} GetWordsIsAll(t: Trie, p: Path)
    requires Valid(t) && p in t.nodes
    ensures GetWords(t, p) == AllWordSuffixes(t, p)
    decreases |p|
  {
    if p != Root {
      DictSuffixIsLongest(t, p);
      AllWordSuffixesFromLongest(t, p[1..]);
      match DictSuffix(t, p) {
        case None =>
        case Some(d) => GetWordsIsAll(t, d);
      }
    }
  }

  // ---------------------------------------------------------------------------
  // The promises of the doc-comments, stated declaratively
  // ---------------------------------------------------------------------------

  /**
   * `suffix(root) == root`; for any other node, `suffix` is the longest
   * proper suffix of the node's path that is a trie node, so it is shorter.
   */
  lemma SuffixSpec(t: Trie, p: Path)
    requires Valid(t) && p in t.nodes
    ensures p == Root ==> Suffix(t, p) == Root
    ensures p != Root ==> IsLongestTrieSuffix(t, p[1..], Suffix(t, p)) && |Suffix(t, p)| < |p|
  {
    if p != Root {
      SuffixIsLongest(t, p);
      LongestTrieSuffixIsLongest(t, p[1..]);
    }
  }

  /**
   * `get_next(n, c)` is the longest suffix of n's path + [c] that is a trie
   * node: the child when there is one, the root for an unknown char at the
   * root, and never more than one symbol longer than `n`.
   */
  lemma GetNextSpec(t: Trie, p: Path, c: char)
    requires Valid(t) && p in t.nodes
    ensures IsLongestTrieSuffix(t, p + [c], GetNext(t, p, c))
    ensures p + [c] in t.nodes ==> GetNext(t, p, c) == p + [c]
    ensures p == Root && [c] !in t.nodes ==> GetNext(t, p, c) == Root
    ensures |GetNext(t, p, c)| <= |p| + 1
  {
    GetNextIsLongest(t, p, c);
    LongestTrieSuffixIsLongest(t, p + [c]);
  }

  /**
   * `dict_suffix(n)` is the longest dictionary word that is a proper suffix
   * of n's path, and None for the root or when there is no such word.
   */
  lemma DictSuffixSpec(t: Trie, p: Path)
    requires Valid(t) && p in t.nodes
    ensures p == Root ==> DictSuffix(t, p) == None
    ensures DictSuffix(t, p).Some? ==>
      var d := DictSuffix(t, p).value;
      && IsWord(t, d) && IsSuffix(d, p) && |d| < |p|
      && forall k :: 1 <= k <= |p| && IsWord(t, p[k..]) ==> |p| - k <= |d|
    ensures DictSuffix(t, p).None? ==> forall k :: 1 <= k <= |p| ==> !IsWord(t, p[k..])
  {
    DictSuffixIsLongest(t, p);
    if p != Root {
      LongestWordSuffixIsLongest(t, p[1..]);
      assert forall k :: 1 <= k <= |p| ==> p[k..] == p[1..][k - 1..];
    }
  }

  /**
   * `get_words(n)` yields exactly the word nodes whose path is a suffix of
   * n's path, each once, with strictly decreasing length, starting with `n`
   * itself when `n` is a word.
   */
  lemma GetWordsSpec(t: Trie, p: Path)
    requires Valid(t) && p in t.nodes
    ensures forall i :: 0 <= i < |GetWords(t, p)| ==>
      IsWord(t, GetWords(t, p)[i]) && IsSuffix(GetWords(t, p)[i], p)
    ensures forall i, j :: 0 <= i < j < |GetWords(t, p)| ==> |GetWords(t, p)[i]| > |GetWords(t, p)[j]|
    ensures forall k :: 0 <= k <= |p| && IsWord(t, p[k..]) ==> p[k..] in GetWords(t, p)
    ensures IsWord(t, p) ==> GetWords(t, p) != [] && GetWords(t, p)[0] == p
  {
    GetWordsIsAll(t, p);
    AllWordSuffixesExact(t, p);
  }
}
