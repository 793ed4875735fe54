/**
 * Enumerating the trie (acsearch/aho_corasick.py): ACDictionary._nodes, the
 * depth-first walk with an explicit stack, and ACDictionary.__iter__, which
 * yields the words in sorted order.
 *
 * The walk pops the last node of the stack, yields it and pushes its
 * children. Which order the children are pushed in is a parameter `push`
 * of the reference definitions: with `sort=True` it is the child chars in
 * descending order, so the smallest child is popped first; with `sort=False`
 * it is the insertion order of the children dict, which the trie model
 * does not keep and which is therefore an arbitrary enumeration here.
 */
module Enumeration {
  import opened Paths
  import opened Trie
  import opened Dictionary

  /** The keys of `node.children`: the chars of the children of `p`. */
  function ChildChars(t: Trie, p: Path): (cs: set<char>)
    ensures forall c {:trigger c in cs} :: c in cs <==> p + [c] in t.nodes
  {
    var cs := set q | q in t.nodes && |q| == |p| + 1 && q[..|p|] == p :: q[|p|];
    assert forall c :: p + [c] in t.nodes ==> (p + [c])[..|p|] == p && (p + [c])[|p|] == c;
    assert forall q :: |q| == |p| + 1 && q[..|p|] == p ==> q == p + [q[|p|]];
    cs
  }

  /** `cs` lists the chars of `s`, each exactly once. */
  predicate Enumerates(cs: seq<char>, s: set<char>) {
    && (forall i, j :: 0 <= i < j < |cs| ==> cs[i] != cs[j])
    && (forall i :: 0 <= i < |cs| ==> cs[i] in s)
    && (forall c :: c in s ==> c in cs)
  }

  predicate Descending(cs: seq<char>) {
    forall i, j :: 0 <= i < j < |cs| ==> cs[j] < cs[i]
  }

  lemma MinExists(s: set<char>)
    requires s != {}
    ensures exists m :: m in s && forall c :: c in s ==> m <= c
    decreases s
  {
    var x :| x in s;
    if s != {x} {
      MinExists(s - {x});
      var m :| m in s - {x} && forall c :: c in s - {x} ==> m <= c;
      var least := if x < m then x else m;
      forall c | c in s
        ensures least <= c
      {
        if c != x {
          assert c in s - {x};
        }
      }
    } else {
      assert forall c :: c in s ==> x <= c;
    }
  }

  /** `sorted(s, reverse=True)` for a set of chars: every char once, largest first. */
  function SortDescending(s: set<char>): (r: seq<char>)
    ensures Enumerates(r, s) && Descending(r)
    decreases s
  {
    if s == {} then []
    else
      MinExists(s);
      var m :| m in s && forall c :: c in s ==> m <= c;
      var rest := SortDescending(s - {m});
      assert forall i :: 0 <= i < |rest| ==> m < rest[i];
      rest + [m]
  }

  /** Every node pushes an enumeration of its children's chars. */
  ghost predicate PushesChildren(t: Trie, push: Path -> seq<char>) {
    forall p {:trigger push(p)} :: p in t.nodes ==> Enumerates(push(p), ChildChars(t, p))
  }

  /** Every node pushes its children's chars in descending order. */
  ghost predicate PushesDescending(t: Trie, push: Path -> seq<char>) {
    forall p {:trigger push(p)} :: p in t.nodes ==> Descending(push(p))
  }

  /** The order in which `_nodes(sort=sort)` pushes the children of a node. */
  function Push(t: Trie, sort: bool, order: Path -> seq<char>): Path -> seq<char> {
    p => if sort then SortDescending(ChildChars(t, p)) else order(p)
  }

  /** The nodes of the subtree rooted at `p`. */
  ghost function Subtree(t: Trie, p: Path): set<Path> {
    set q | q in t.nodes && IsPrefix(p, q)
  }

  lemma SubtreeChild(t: Trie, p: Path, c: char, q: Path)
    ensures q in Subtree(t, p + [c]) <==> q in Subtree(t, p) && |q| > |p| && q[|p|] == c
  {
    if |q| > |p| {
      assert q[..|p| + 1] == q[..|p|] + [q[|p|]];
      assert (p + [c])[..|p|] == p;
    }
  }

  lemma SubtreeShrinks(t: Trie, p: Path, c: char)
    requires p in t.nodes
    ensures Subtree(t, p + [c]) < Subtree(t, p)
  {
    forall q | q in Subtree(t, p + [c])
      ensures q in Subtree(t, p)
    {
      SubtreeChild(t, p, c, q);
    }
    assert p in Subtree(t, p);
  }

  /** A node of the subtree of `p` other than `p` lies under one of `p`'s children. */
  lemma SubtreeSplit(t: Trie, p: Path, q: Path)
    requires Valid(t) && q in Subtree(t, p) && q != p
    ensures |q| > |p| && q[|p|] in ChildChars(t, p)
  {
    PrefixClosed(t, q, |p| + 1);
    assert q[..|p| + 1] == q[..|p|] + [q[|p|]];
  }

  /**
   * The nodes `_nodes` yields from the moment `p` is popped until everything
   * pushed after it has been popped: `p`, then its subtrees.
   */
  ghost function PreOrder(t: Trie, push: Path -> seq<char>, p: Path): seq<Path>
    requires PushesChildren(t, push) && p in t.nodes
    decreases Subtree(t, p), 1
  {
    [p] + Forest(t, push, p, push(p))
  }

  /** The nodes yielded for the children `cs` of `p` pushed in this order: the last one first. */
  ghost function Forest(t: Trie, push: Path -> seq<char>, p: Path, cs: seq<char>): seq<Path>
    requires PushesChildren(t, push) && p in t.nodes
    requires forall i :: 0 <= i < |cs| ==> cs[i] in ChildChars(t, p)
    decreases Subtree(t, p), 0, |cs|
  {
    if cs == [] then []
    else
      assert Last(cs) in ChildChars(t, p);
      SubtreeShrinks(t, p, Last(cs));
      PreOrder(t, push, p + [Last(cs)]) + Forest(t, push, p, Parent(cs))
  }

  /** The nodes still to be yielded for a stack: its last entry's subtree first. */
  ghost function Pending(t: Trie, push: Path -> seq<char>, stack: seq<Path>): seq<Path>
    requires PushesChildren(t, push) && OnStack(t, stack)
  {
    if stack == [] then []
    else PreOrder(t, push, Last(stack)) + Pending(t, push, Parent(stack))
  }

  /** The child nodes of `p` for the chars `cs`. */
  function Children(p: Path, cs: seq<char>): (r: seq<Path>)
    ensures |r| == |cs| && forall i :: 0 <= i < |cs| ==> r[i] == p + [cs[i]]
  {
    seq(|cs|, i requires 0 <= i < |cs| => p + [cs[i]])
  }

  /** Every entry of the stack is a node. */
  ghost predicate OnStack(t: Trie, stack: seq<Path>) {
    forall i :: 0 <= i < |stack| ==> stack[i] in t.nodes
  }

  lemma ChildrenSplit(stack: seq<Path>, p: Path, cs: seq<char>)
    requires cs != []
    ensures Last(stack + Children(p, cs)) == p + [Last(cs)]
    ensures Parent(stack + Children(p, cs)) == stack + Children(p, Parent(cs))
  {
  }

  lemma PushOnStack(t: Trie, stack: seq<Path>, p: Path, cs: seq<char>)
    requires OnStack(t, stack)
    requires forall i :: 0 <= i < |cs| ==> cs[i] in ChildChars(t, p)
    ensures OnStack(t, stack + Children(p, cs))
  {
  }

  /** Pushing the children `cs` of `p` puts their subtrees, last one first, ahead of the rest. */
  lemma {:induction false} PendingPush(t: Trie, push: Path -> seq<char>, stack: seq<Path>, p: Path, cs: seq<char>)
    requires PushesChildren(t, push) && p in t.nodes && OnStack(t, stack)
    requires forall i :: 0 <= i < |cs| ==> cs[i] in ChildChars(t, p)
    ensures OnStack(t, stack + Children(p, cs))
    ensures Pending(t, push, stack + Children(p, cs)) == Forest(t, push, p, cs) + Pending(t, push, stack)
    decreases |cs|
  {
    PushOnStack(t, stack, p, cs);
    if cs == [] {
      assert stack + Children(p, cs) == stack;
    } else {
      ChildrenSplit(stack, p, cs);
      PendingPush(t, push, stack, p, Parent(cs));
    }
  }

  lemma SortPushes(t: Trie, sort: bool, order: Path -> seq<char>)
    requires !sort ==> PushesChildren(t, order)
    ensures PushesChildren(t, Push(t, sort, order))
    ensures sort ==> PushesDescending(t, Push(t, sort, order))
  {
  }

  /**
   * ACDictionary._nodes(bf=False, sort=sort): the nodes in depth-first
   * pre-order, each node once; with `sort` the children are visited in
   * increasing char order, so the nodes come out in sorted string order.
   * `order` gives the children dict's insertion order, used when `sort` is
   * false.
   */
  method Nodes(t: Trie, sort: bool, order: Path -> seq<char>) returns (out: seq<Path>)
    requires Valid(t)
    requires !sort ==> PushesChildren(t, order)
    ensures PushesChildren(t, Push(t, sort, order))
    ensures out == PreOrder(t, Push(t, sort, order), Root)
    ensures NoDup(out)
    ensures forall q :: q in out <==> q in t.nodes
    ensures sort ==> Sorted(out)
  {
    SortPushes(t, sort, order);
    out := Walk(t, Push(t, sort, order));
    WalkFacts(t, Push(t, sort, order), sort);
  }

  /** The stack loop of `_nodes`, for children pushed in the order `push` gives. */
  method Walk(t: Trie, push: Path -> seq<char>) returns (out: seq<Path>)
    requires Root in t.nodes && PushesChildren(t, push)
    ensures out == PreOrder(t, push, Root)
  {
    var stack := [Root];
    out := [];
    assert Pending(t, push, stack) == PreOrder(t, push, Root) + Pending(t, push, []);
    while stack != []
      invariant OnStack(t, stack)
      invariant out + Pending(t, push, stack) == PreOrder(t, push, Root)
      decreases |Pending(t, push, stack)|
    {
      var p := stack[|stack| - 1];
      PopStep(t, push, stack);
      out := out + [p];
      stack := stack[..|stack| - 1] + Children(p, push(p));
    }
  }

  /** Popping `p` yields it and replaces it on the stack by its children. */
  lemma PopStep(t: Trie, push: Path -> seq<char>, stack: seq<Path>)
    requires PushesChildren(t, push) && OnStack(t, stack) && stack != []
    ensures OnStack(t, Parent(stack) + Children(Last(stack), push(Last(stack))))
    ensures Pending(t, push, stack) ==
      [Last(stack)] + Pending(t, push, Parent(stack) + Children(Last(stack), push(Last(stack))))
  {
    var p := Last(stack);
    PendingPush(t, push, Parent(stack), p, push(p));
  }

  /** The whole walk from the root: every node once, sorted when the children are pushed descending. */
  lemma WalkFacts(t: Trie, push: Path -> seq<char>, sort: bool)
    requires Valid(t) && PushesChildren(t, push) && (sort ==> PushesDescending(t, push))
    ensures NoDup(PreOrder(t, push, Root))
    ensures forall q :: q in PreOrder(t, push, Root) <==> q in t.nodes
    ensures sort ==> Sorted(PreOrder(t, push, Root))
  {
    PreOrderExact(t, push, Root);
    forall q | q in t.nodes
      ensures q in Subtree(t, Root)
    {
      assert q[..0] == Root;
    }
    if sort {
      PreOrderSorted(t, push, Root);
    }
  }

  predicate NoDup(s: seq<Path>) {
    forall i, j :: 0 <= i < j < |s| ==> s[i] != s[j]
  }

  lemma NoDupConcat(a: seq<Path>, b: seq<Path>)
    requires NoDup(a) && NoDup(b)
    requires forall q :: q in a ==> q !in b
    ensures NoDup(a + b)
  {
    forall i, j | 0 <= i < j < |a + b|
      ensures (a + b)[i] != (a + b)[j]
    {
      if i < |a| && j >= |a| {
        assert (a + b)[i] in a && (a + b)[j] in b;
      }
    }
  }

  /**
   * Each pre-order lists the subtree of `p` exactly once: the walk yields
   * every node of the trie once, whatever order the children are pushed in.
   */
  lemma {:induction false} PreOrderExact(t: Trie, push: Path -> seq<char>, p: Path)
    requires Valid(t) && PushesChildren(t, push) && p in t.nodes
    ensures NoDup(PreOrder(t, push, p))
    ensures forall q :: q in PreOrder(t, push, p) <==> q in Subtree(t, p)
    decreases Subtree(t, p), 1
  {
    var cs := push(p);
    ForestExact(t, push, p, cs);
    var f := Forest(t, push, p, cs);
    assert p !in f;
    assert PreOrder(t, push, p) == [p] + f;
    NoDupConcat([p], f);
    forall q | q in Subtree(t, p) && q != p
      ensures q in f
    {
      SubtreeSplit(t, p, q);
    }
    assert p[..|p|] == p;
  }

  lemma {:induction false} ForestExact(t: Trie, push: Path -> seq<char>, p: Path, cs: seq<char>)
    requires Valid(t) && PushesChildren(t, push) && p in t.nodes
    requires forall i :: 0 <= i < |cs| ==> cs[i] in ChildChars(t, p)
    requires forall i, j :: 0 <= i < j < |cs| ==> cs[i] != cs[j]
    ensures NoDup(Forest(t, push, p, cs))
    ensures forall q :: q in Forest(t, push, p, cs) <==>
      q in Subtree(t, p) && |q| > |p| && q[|p|] in cs
    decreases Subtree(t, p), 0, |cs|
  {
    if cs != [] {
      var x := Last(cs);
      SubtreeShrinks(t, p, x);
      PreOrderExact(t, push, p + [x]);
      ForestExact(t, push, p, Parent(cs));
      var a, b := PreOrder(t, push, p + [x]), Forest(t, push, p, Parent(cs));
      assert Forest(t, push, p, cs) == a + b;
      forall q
        ensures q in a <==> q in Subtree(t, p) && |q| > |p| && q[|p|] == x
      {
        SubtreeChild(t, p, x, q);
      }
      assert forall c :: c in cs <==> c == x || c in Parent(cs);
      assert x !in Parent(cs);
      NoDupConcat(a, b);
    }
  }

  /** Strictly increasing in Python's string order. */
  predicate Sorted(s: seq<Path>) {
    forall i, j :: 0 <= i < j < |s| ==> LexLess(s[i], s[j])
  }

  lemma SortedConcat(a: seq<Path>, b: seq<Path>)
    requires Sorted(a) && Sorted(b)
    requires forall x, y :: x in a && y in b ==> LexLess(x, y)
    ensures Sorted(a + b)
  {
    forall i, j | 0 <= i < j < |a + b|
      ensures LexLess((a + b)[i], (a + b)[j])
    {
      if i < |a| && j >= |a| {
        assert (a + b)[i] in a && (a + b)[j] in b;
      }
    }
  }

  /** A node of the subtree of `p` below its child `c` is `p + [c]` followed by more. */
  lemma UnderChild(t: Trie, p: Path, q: Path)
    requires q in Subtree(t, p) && |q| > |p|
    ensures q == p + [q[|p|]] + q[|p| + 1..]
  {
    assert q == q[..|p|] + [q[|p|]] + q[|p| + 1..];
  }

  /** A node is ordered before every other node of its subtree. */
  lemma BeforeSubtree(t: Trie, p: Path, y: Path)
    requires y in Subtree(t, p) && |y| > |p|
    ensures LexLess(p, y)
  {
    assert y == p + y[|p|..];
    LexLessExtension(p, y[|p|..]);
  }

  /** With children pushed in descending order, the walk yields its nodes in sorted order. */
  lemma {:induction false} PreOrderSorted(t: Trie, push: Path -> seq<char>, p: Path)
    requires Valid(t) && PushesChildren(t, push) && PushesDescending(t, push) && p in t.nodes
    ensures Sorted(PreOrder(t, push, p))
    decreases Subtree(t, p), 1
  {
    var cs := push(p);
    ForestSorted(t, push, p, cs);
    ForestExact(t, push, p, cs);
    var f := Forest(t, push, p, cs);
    forall y | y in f
      ensures LexLess(p, y)
    {
      BeforeSubtree(t, p, y);
    }
    SortedConcat([p], f);
  }

  lemma {:induction false} ForestSorted(t: Trie, push: Path -> seq<char>, p: Path, cs: seq<char>)
    requires Valid(t) && PushesChildren(t, push) && PushesDescending(t, push) && p in t.nodes
    requires forall i :: 0 <= i < |cs| ==> cs[i] in ChildChars(t, p)
    requires Descending(cs)
    ensures Sorted(Forest(t, push, p, cs))
    decreases Subtree(t, p), 0, |cs|
  {
    if cs != [] {
      var x := Last(cs);
      SubtreeShrinks(t, p, x);
      PreOrderSorted(t, push, p + [x]);
      ForestSorted(t, push, p, Parent(cs));
      PreOrderExact(t, push, p + [x]);
      ForestExact(t, push, p, Parent(cs));
      var a, b := PreOrder(t, push, p + [x]), Forest(t, push, p, Parent(cs));
      forall u, v | u in a && v in b
        ensures LexLess(u, v)
      {
        SubtreeChild(t, p, x, u);
        UnderChild(t, p, u);
        UnderChild(t, p, v);
        var k :| 0 <= k < |Parent(cs)| && Parent(cs)[k] == v[|p|];
        assert x < v[|p|];
        LexLessDiverge(p, x, u[|p| + 1..], v[|p|], v[|p| + 1..]);
      }
      SortedConcat(a, b);
    }
  }

  /** The word nodes of `ns`, in order. */
  function WordsIn(t: Trie, ns: seq<Path>): (ws: seq<Path>)
    ensures forall q :: q in ws <==> q in ns && IsWord(t, q)
  {
    if ns == [] then []
    else WordsIn(t, Parent(ns)) + (if IsWord(t, Last(ns)) then [Last(ns)] else [])
  }

  lemma {:induction false} WordsInSorted(t: Trie, ns: seq<Path>)
    requires Sorted(ns)
    ensures Sorted(WordsIn(t, ns))
  {
    if ns != [] {
      WordsInSorted(t, Parent(ns));
      var a := WordsIn(t, Parent(ns));
      forall x | x in a
        ensures LexLess(x, Last(ns))
      {
        var i :| 0 <= i < |Parent(ns)| && Parent(ns)[i] == x;
      }
      SortedConcat(a, if IsWord(t, Last(ns)) then [Last(ns)] else []);
    }
  }

  /** A strictly sorted list has as many elements as it has distinct ones. */
  lemma {:induction false} SortedCard(s: seq<Path>)
    requires Sorted(s)
    ensures |set q | q in s| == |s|
  {
    if s != [] {
      SortedCard(Parent(s));
      ParentLast(s);
      assert (set q | q in s) == (set q | q in Parent(s)) + {Last(s)};
      forall i | 0 <= i < |Parent(s)|
        ensures Parent(s)[i] != Last(s)
      {
        assert LexLess(s[i], s[|s| - 1]);
        LexLessIrreflexive(s[i]);
      }
    }
  }

  /** A list whose neighbours are in order is sorted. */
  lemma {:induction false} SortedOfNeighbours(s: seq<Path>)
    requires forall i :: 0 < i < |s| ==> LexLess(s[i - 1], s[i])
    ensures Sorted(s)
  {
    if s != [] {
      SortedOfNeighbours(Parent(s));
      forall i | 0 <= i < |s| - 2
        ensures LexLess(s[i], s[|s| - 1])
      {
        LexLessTransitive(s[i], s[|s| - 2], s[|s| - 1]);
      }
    }
  }

  /** Two strictly sorted lists with the same elements are the same list. */
  lemma {:induction false} SortedUnique(a: seq<Path>, b: seq<Path>)
    requires Sorted(a) && Sorted(b)
    requires forall q :: q in a <==> q in b
    ensures a == b
    decreases |a|
  {
    SortedCard(a);
    SortedCard(b);
    assert (set q | q in a) == (set q | q in b);
    if a != [] {
      if a[0] != b[0] {
        assert a[0] in a && b[0] in b;
        var i :| 0 <= i < |a| && a[i] == b[0];
        var j :| 0 <= j < |b| && b[j] == a[0];
        assert LexLess(a[0], b[0]) && LexLess(b[0], a[0]);
        LexLessAsymmetric(a[0], b[0]);
        assert false;
      }
      forall q
        ensures q in a[1..] <==> q in b[1..]
      {
        if q in a[1..] {
          var k :| 1 <= k < |a| && a[k] == q;
          LexLessIrreflexive(q);
          assert q in b && q != b[0];
          var m :| 0 <= m < |b| && b[m] == q;
          assert b[1..][m - 1] == q;
        }
        if q in b[1..] {
          var k :| 1 <= k < |b| && b[k] == q;
          LexLessIrreflexive(q);
          assert q in a && q != a[0];
          var m :| 0 <= m < |a| && a[m] == q;
          assert a[1..][m - 1] == q;
        }
      }
      SortedUnique(a[1..], b[1..]);
      assert a == [a[0]] + a[1..] && b == [b[0]] + b[1..];
    }
  }

  /**
   * ACDictionary.__iter__: `str` of every word node of the sorted walk. The
   * words come out strictly sorted, each stored word exactly once, so there
   * are as many as `__len__` reports.
   */
  method Iter(t: Trie) returns (words: seq<string>)
    requires Valid(t)
    ensures Sorted(words)
    ensures forall w :: w in words <==> w in Words(t)
    ensures |words| == |Words(t)|
  {
    var ns := Nodes(t, true, p => []);
    words := [];
    for i := 0 to |ns|
      invariant words == WordsIn(t, ns[..i])
    {
      TakeSucc(ns, i);
      if t.nodes[ns[i]].isWord {
        words := words + [GetChars(t, ns[i])];
      }
    }
    assert ns[..|ns|] == ns;
    WordsOfWalk(t, ns);
  }

  /**
   * `__iter__` on a dictionary whose `_len` counts its stored words, as Build
   * ensures: it yields as many words as `__len__` reports.
   */
  method IterDictionary(d: ACDictionary) returns (words: seq<string>)
    requires Valid(d.trie) && d.len == |Words(d.trie)|
    ensures Sorted(words)
    ensures forall w :: w in words <==> w in Words(d.trie)
    ensures |words| == d.len
  {
    words := Iter(d.trie);
  }

  /** The word nodes of a sorted listing of all nodes: the words, sorted, each once. */
  lemma WordsOfWalk(t: Trie, ns: seq<Path>)
    requires Sorted(ns) && forall q :: q in ns <==> q in t.nodes
    ensures Sorted(WordsIn(t, ns))
    ensures forall w :: w in WordsIn(t, ns) <==> w in Words(t)
    ensures |WordsIn(t, ns)| == |Words(t)|
  {
    var ws := WordsIn(t, ns);
    WordsInSorted(t, ns);
    SortedCard(ws);
    assert (set q | q in ws) == Words(t);
  }
}
