/** Symbol sequences: a trie node is identified with the characters on its root-to-node path. */
module Paths {

  type Path = seq<char>

  /** `a` is a (not necessarily proper) suffix of `b`. */
  predicate IsSuffix(a: Path, b: Path) {
    |a| <= |b| && a == b[|b| - |a|..]
  }

  /** `a` is a (not necessarily proper) prefix of `b`. */
  predicate IsPrefix(a: Path, b: Path) {
    |a| <= |b| && a == b[..|a|]
  }

  /** The path of a node's parent; on any sequence, all but its last element. */
  function Parent<T>(p: seq<T>): seq<T>
    requires p != []
  {
    p[..|p| - 1]
  }

  /** The char stored on a node: the last symbol of its path. */
  function Last<T>(p: seq<T>): T
    requires p != []
  {
    p[|p| - 1]
  }

  /** A non-empty sequence is its parent extended by its last element. */
  lemma ParentLast<T>(p: seq<T>)
    requires p != []
    ensures Parent(p) + [Last(p)] == p
  {
  }

  lemma SuffixTrans(a: Path, b: Path, c: Path)
    requires IsSuffix(a, b) && IsSuffix(b, c)
    ensures IsSuffix(a, c)
  {
    assert b[|b| - |a|..] == c[|c| - |a|..];
  }

  lemma SuffixAppend(a: Path, b: Path, x: char)
    requires IsSuffix(a, b)
    ensures IsSuffix(a + [x], b + [x])
  {
    assert (b + [x])[|b| + 1 - (|a| + 1)..] == b[|b| - |a|..] + [x];
  }

  /** Of two suffixes of one sequence, the shorter is a suffix of the longer. */
  lemma SuffixOfSuffix(a: Path, b: Path, s: Path)
    requires IsSuffix(a, s) && IsSuffix(b, s) && |a| <= |b|
    ensures IsSuffix(a, b)
  {
    assert b[|b| - |a|..] == s[|s| - |a|..];
  }

  /** A suffix of `s` is determined by its length. */
  lemma SuffixUnique(a: Path, b: Path, s: Path)
    requires IsSuffix(a, s) && IsSuffix(b, s) && |a| == |b|
    ensures a == b
  {
  }

  /** Every suffix of `s + [x]` but the empty one ends with `x` and continues a suffix of `s`. */
  lemma SuffixOfAppend(q: Path, s: Path, x: char)
    requires IsSuffix(q, s + [x]) && q != []
    ensures Parent(q) == s[|s| - |q| + 1..] && Last(q) == x
    ensures IsSuffix(Parent(q), s)
  {
    assert q == (s + [x])[|s| + 1 - |q|..];
    assert Parent(q) == (s + [x])[|s| + 1 - |q|..|s|];
  }

  /** Dropping the first symbol commutes with splitting off the last one. */
  lemma DropFirstOfParent(p: Path)
    requires |p| >= 2
    ensures Parent(p)[1..] + [Last(p)] == p[1..]
  {
  }

  /** Dropping the first symbol commutes with appending one. */
  lemma DropFirstOfAppend(p: Path, x: char)
    requires p != []
    ensures (p + [x])[1..] == p[1..] + [x]
  {
  }

  /** Taking one more element of a sequence appends it. */
  lemma TakeSucc<T>(s: seq<T>, i: nat)
    requires i < |s|
    ensures s[..i + 1] == s[..i] + [s[i]] && Parent(s[..i + 1]) == s[..i] && Last(s[..i + 1]) == s[i]
  {
  }

  /**
   * Python's ordering of strings: lexicographic by code point, a proper
   * prefix ordered before its extensions.
   */
  predicate LexLess(a: Path, b: Path)
    decreases |a|
  {
    if b == [] then false
    else if a == [] then true
    else if a[0] != b[0] then a[0] < b[0]
    else LexLess(a[1..], b[1..])
  }

  lemma {:induction false} LexLessIrreflexive(a: Path)
    ensures !LexLess(a, a)
    decreases |a|
  {
    if a != [] {
      LexLessIrreflexive(a[1..]);
    }
  }

  lemma {:induction false} LexLessAsymmetric(a: Path, b: Path)
    requires LexLess(a, b)
    ensures !LexLess(b, a)
    decreases |a|
  {
    if a != [] && b != [] && a[0] == b[0] {
      LexLessAsymmetric(a[1..], b[1..]);
    }
  }

  lemma {:induction false} LexLessTransitive(a: Path, b: Path, c: Path)
    requires LexLess(a, b) && LexLess(b, c)
    ensures LexLess(a, c)
    decreases |a|
  {
    if a != [] && a[0] == b[0] && b[0] == c[0] {
      LexLessTransitive(a[1..], b[1..], c[1..]);
    }
  }

  /** A path is ordered before every proper extension of itself. */
  lemma {:induction false} LexLessExtension(p: Path, u: Path)
    requires u != []
    ensures LexLess(p, p + u)
    decreases |p|
  {
    if p != [] {
      assert (p + u)[1..] == p[1..] + u;
      LexLessExtension(p[1..], u);
    }
  }

  /** Paths that agree up to `p` and then diverge are ordered by the diverging symbols. */
  lemma {:induction false} LexLessDiverge(p: Path, x: char, u: Path, y: char, v: Path)
    requires x < y
    ensures LexLess(p + [x] + u, p + [y] + v)
    decreases |p|
  {
    if p != [] {
      assert (p + [x] + u)[1..] == p[1..] + [x] + u;
      assert (p + [y] + v)[1..] == p[1..] + [y] + v;
      LexLessDiverge(p[1..], x, u, y, v);
    }
  }
}
