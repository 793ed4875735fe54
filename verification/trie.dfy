/**
 * The trie of ACNode / ACRootNode objects (acsearch/aho_corasick.py).
 *
 * A node is identified with its root-to-node path; the trie maps every node
 * path to the fields the source stores on the node: `char` (absent for the
 * root), `len` and `is_word`. A node's `parent` is the path without its last
 * symbol and its `children` are the one-symbol extensions present in the map.
 */
module Trie {
  import opened Wrappers
  import opened Paths

  /** The fields `char` (here `symbol`), `len` and `is_word` of one ACNode. */
  datatype NodeInfo = NodeInfo(symbol: Option<char>, len: nat, isWord: bool)

  datatype Trie = Trie(nodes: map<Path, NodeInfo>)

  /** The ACRootNode: `char` is None, `len` is 0, it is never a word. */
  const Root: Path := []

  const RootInfo := NodeInfo(None, 0, false)

  /**
   * The shape every trie built by `add_child` has: the root is present with
   * its fixed fields, every other node's parent is present, and each node's
   * `char` and `len` agree with its path.
   */
  ghost predicate Valid(t: Trie) {
    && Root in t.nodes
    && t.nodes[Root] == RootInfo
    && (forall p {:trigger Parent(p)} :: p in t.nodes && p != Root ==> Parent(p) in t.nodes)
    && (forall p :: p in t.nodes && p != Root ==>
          t.nodes[p].symbol == Some(Last(p)) && t.nodes[p].len == |p|)
  }

  /** The node `p` exists and has `is_word` set. */
  predicate IsWord(t: Trie, p: Path) {
    p in t.nodes && t.nodes[p].isWord
  }

  /** The set of dictionary words stored in the trie. */
  function Words(t: Trie): set<Path> {
    set p | p in t.nodes && t.nodes[p].isWord
  }

  /** A freshly constructed ACRootNode with no children. */
  function Empty(): (t: Trie)
    ensures Valid(t)
    ensures t.nodes.Keys == {Root} && Words(t) == {}
  {
    Trie(map[Root := RootInfo])
  }

  /** Every prefix of a node is a node: the trie is prefix-closed. */
  lemma {:induction false} PrefixClosed(t: Trie, p: Path, k: nat)
    requires Valid(t) && p in t.nodes && k <= |p|
    ensures p[..k] in t.nodes
    decreases |p| - k
  {
    if k < |p| {
      assert Parent(p)[..k] == p[..k];
      PrefixClosed(t, Parent(p), k);
    } else {
      assert p[..k] == p;
    }
  }

  /** The root is not a word, so every word is non-empty. */
  lemma WordsNonEmpty(t: Trie, p: Path)
    requires Valid(t) && IsWord(t, p)
    ensures p != Root
  {
  }

  /**
   * ACNode.add_child(char, is_word): returns the child of `p` for `c`
   * together with the updated trie. An existing child is returned as is, with
   * only its word flag or-ed with `isWord`; otherwise a new child is created
   * whose parent is `p` and whose `len` is one more than its parent's.
   */
  function AddChild(t: Trie, p: Path, c: char, isWord: bool): (r: (Trie, Path))
    requires Valid(t) && p in t.nodes
    ensures Valid(r.0)
    ensures r.1 == p + [c] && r.1 in r.0.nodes && r.1 != Root && Parent(r.1) == p
    ensures r.0.nodes[r.1].len == t.nodes[p].len + 1
    ensures r.0.nodes[r.1].isWord == (IsWord(t, r.1) || isWord)
    ensures r.1 in t.nodes ==> r.0.nodes.Keys == t.nodes.Keys
    ensures r.1 in t.nodes && !isWord ==> r.0 == t
    ensures r.1 !in t.nodes ==> r.0.nodes.Keys == t.nodes.Keys + {r.1}
    ensures forall q :: q in t.nodes && q != r.1 ==> q in r.0.nodes && r.0.nodes[q] == t.nodes[q]
  {
    var child := p + [c];
    assert Parent(child) == p;
    if child in t.nodes then
      var info := t.nodes[child];
      (Trie(t.nodes[child := info.(isWord := info.isWord || isWord)]), child)
    else
      (Trie(t.nodes[child := NodeInfo(Some(c), t.nodes[p].len + 1, isWord)]), child)
  }

  /** Adding a child that is not a word leaves the set of words unchanged. */
  lemma AddChildKeepsWords(t: Trie, p: Path, c: char)
    requires Valid(t) && p in t.nodes
    ensures Words(AddChild(t, p, c, false).0) == Words(t)
  {
    var (t', child) := AddChild(t, p, c, false);
    forall q | q in Words(t')
      ensures q in Words(t)
    {
      if q != child {
        assert q in t.nodes;
      }
    }
  }

  /** A valid trie is determined by its node set and its word set. */
  lemma TrieDetermined(t1: Trie, t2: Trie)
    requires Valid(t1) && Valid(t2)
    requires t1.nodes.Keys == t2.nodes.Keys && Words(t1) == Words(t2)
    ensures t1 == t2
  {
    forall p | p in t1.nodes
      ensures t1.nodes[p] == t2.nodes[p]
    {
      assert t1.nodes[p].isWord <==> p in Words(t1);
      assert t2.nodes[p].isWord <==> p in Words(t2);
    }
    assert t1.nodes == t2.nodes;
  }

  /**
   * ACNode.get_chars / ACRootNode.get_chars: the chars collected by walking
   * the parent chain, so `str(node)`.
   */
  function GetChars(t: Trie, p: Path): (r: seq<char>)
    requires Valid(t) && p in t.nodes
    ensures r == p
    decreases |p|
  {
    if p == Root then []
    else GetChars(t, Parent(p)) + [t.nodes[p].symbol.value]
  }

  /** ACNode.__len__: the stored `len`, which is the length of `str(node)`. */
  function Len(t: Trie, p: Path): (n: nat)
    requires Valid(t) && p in t.nodes
    ensures n == |GetChars(t, p)|
  {
    t.nodes[p].len
  }
}
