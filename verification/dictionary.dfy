/**
 * ACDictionary construction (`__init__`, `_add_word`) and `__len__`
 * (acsearch/aho_corasick.py): words are inserted one at a time into a trie
 * that starts as a lone root, and the words that were new are counted.
 */
module Dictionary {
  import opened Wrappers
  import opened Paths
  import opened Trie

  /** The ValueError `_add_word` raises for the empty word. */
  datatype Error = EmptyWord

  /** An ACDictionary: its trie and `_len`, the number of distinct words. */
  datatype ACDictionary = ACDictionary(trie: Trie, len: nat)

  /** Every prefix of `w`, the empty one and `w` itself included. */
  ghost function Prefixes(w: Path): set<Path> {
    set k | 0 <= k <= |w| :: w[..k]
  }

  /** The distinct words of a word list. */
  ghost function SetOf(ws: seq<Path>): set<Path> {
    set w | w in ws
  }

  /** The nodes of a trie holding the words `ws`: the root and every prefix of every word. */
  ghost function AllPrefixes(ws: set<Path>): set<Path> {
    {Root} + set w, k | w in ws && 0 <= k <= |w| :: w[..k]
  }

  lemma PrefixesSucc(w: Path, i: nat)
    requires i < |w|
    ensures Prefixes(w[..i + 1]) == Prefixes(w[..i]) + {w[..i + 1]}
  {
    var a, b := Prefixes(w[..i + 1]), Prefixes(w[..i]) + {w[..i + 1]};
    forall q | q in a ensures q in b {
      var k :| 0 <= k <= i + 1 && q == w[..i + 1][..k];
      if k <= i {
        assert q == w[..i][..k];
      } else {
        assert q == w[..i + 1];
      }
    }
    forall q | q in b ensures q in a {
      if q != w[..i + 1] {
        var k :| 0 <= k <= i && q == w[..i][..k];
        assert q == w[..i + 1][..k];
      } else {
        assert q == w[..i + 1][..i + 1];
      }
    }
  }

  lemma AllPrefixesAdd(ws: set<Path>, w: Path)
    ensures AllPrefixes(ws + {w}) == AllPrefixes(ws) + Prefixes(w)
  {
    var a, b := AllPrefixes(ws + {w}), AllPrefixes(ws) + Prefixes(w);
    forall q | q in a ensures q in b {
      if q != Root {
        var v, k :| v in ws + {v} && 0 <= k <= |v| && q == v[..k];
      }
    }
    forall q | q in b ensures q in a {
      if q in Prefixes(w) {
        var k :| 0 <= k <= |w| && q == w[..k];
      }
    }
  }

  lemma SetOfSucc(ws: seq<Path>, i: nat)
    requires i < |ws|
    ensures SetOf(ws[..i + 1]) == SetOf(ws[..i]) + {ws[i]}
  {
    assert ws[..i + 1] == ws[..i] + [ws[i]];
  }

  /**
   * ACDictionary._add_word: walk `add_child` from the root along the word,
   * then, unless the walk stayed at the (falsy) root, set `is_word` and
   * report whether the word is new. An empty word raises ValueError.
   */
  method AddWord(t: Trie, word: string) returns (r: Result<(Trie, bool), Error>)
    requires Valid(t)
    ensures r.Failure? <==> word == []
    ensures r.Failure? ==> r.error == EmptyWord
    ensures r.Success? ==> Valid(r.value.0)
    ensures r.Success? ==> r.value.0.nodes.Keys == t.nodes.Keys + Prefixes(word)
    ensures r.Success? ==> Words(r.value.0) == Words(t) + {word}
    ensures r.Success? ==> r.value.1 == (word !in Words(t))
    ensures r.Success? && !r.value.1 ==> r.value.0 == t
  {
    var node := Root;
    var cur := t;
    for i := 0 to |word|
      invariant Valid(cur) && node == word[..i] && node in cur.nodes
      invariant cur.nodes.Keys == t.nodes.Keys + Prefixes(word[..i])
      invariant Words(cur) == Words(t)
      invariant word in Words(t) ==> cur == t
    {
      AddChildKeepsWords(cur, node, word[i]);
      PrefixesSucc(word, i);
      TakeSucc(word, i);
      if word in Words(t) {
        PrefixClosed(t, word, i + 1);
      }
      var step := AddChild(cur, node, word[i], false);
      cur, node := step.0, step.1;
    }
    assert word[..|word|] == word;
    if node == Root {
      return Failure(EmptyWord);
    }
    var wasWord := cur.nodes[node].isWord;
    return Success((MarkWord(cur, node), !wasWord));
  }

  /** `node.is_word = True`: the node becomes a word and nothing else changes. */
  function MarkWord(t: Trie, p: Path): (r: Trie)
    requires Valid(t) && p in t.nodes && p != Root
    ensures Valid(r)
    ensures r.nodes.Keys == t.nodes.Keys
    ensures Words(r) == Words(t) + {p}
    ensures IsWord(t, p) ==> r == t
  {
    var info := t.nodes[p];
    var r := Trie(t.nodes[p := info.(isWord := true)]);
    assert Words(r) == Words(t) + {p};
    r
  }

  /**
   * ACDictionary.__init__: add every word in order, counting the ones that
   * were new; an empty word anywhere aborts the whole construction.
   */
  method Build(words: seq<string>) returns (r: Result<ACDictionary, Error>)
    ensures r.Failure? <==> [] in words
    ensures r.Failure? ==> r.error == EmptyWord
    ensures r.Success? ==> Valid(r.value.trie)
    ensures r.Success? ==> Words(r.value.trie) == SetOf(words)
    ensures r.Success? ==> r.value.len == |SetOf(words)| == |Words(r.value.trie)|
    ensures r.Success? ==> r.value.trie.nodes.Keys == AllPrefixes(SetOf(words))
  {
    var t := Empty();
    var count := 0;
    assert AllPrefixes({}) == {Root};
    for i := 0 to |words|
      invariant Valid(t) && [] !in words[..i]
      invariant Words(t) == SetOf(words[..i])
      invariant count == |Words(t)|
      invariant t.nodes.Keys == AllPrefixes(Words(t))
    {
      var res := AddWord(t, words[i]);
      if res.Failure? {
        assert words[i] in words;
        return Failure(res.error);
      }
      SetOfSucc(words, i);
      AllPrefixesAdd(Words(t), words[i]);
      PrefixClosedWords(t, words[i]);
      if res.value.1 {
        count := count + 1;
      }
      t := res.value.0;
    }
    assert words[..|words|] == words;
    return Success(ACDictionary(t, count));
  }

  /** A trie whose nodes are exactly the prefixes of its words already holds every prefix of a word it has. */
  lemma PrefixClosedWords(t: Trie, w: Path)
    requires Valid(t) && t.nodes.Keys == AllPrefixes(Words(t))
    ensures w in Words(t) ==> Prefixes(w) <= t.nodes.Keys
  {
    if w in Words(t) {
      forall q | q in Prefixes(w) ensures q in t.nodes {
        var k :| 0 <= k <= |w| && q == w[..k];
        PrefixClosed(t, w, k);
      }
    }
  }

  /** Word lists with the same distinct words build the same trie, so duplicates change nothing. */
  lemma BuildIgnoresDuplicates(t1: Trie, t2: Trie, ws1: seq<string>, ws2: seq<string>)
    requires Valid(t1) && Words(t1) == SetOf(ws1) && t1.nodes.Keys == AllPrefixes(SetOf(ws1))
    requires Valid(t2) && Words(t2) == SetOf(ws2) && t2.nodes.Keys == AllPrefixes(SetOf(ws2))
    requires SetOf(ws1) == SetOf(ws2)
    ensures t1 == t2
  {
    TrieDetermined(t1, t2);
  }
}
