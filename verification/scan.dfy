/**
 * Scanning a text: ACDictionary._find, findall and finditer, and the ACMatch
 * value they produce (acsearch/aho_corasick.py). Generators are modelled as
 * the finite sequences they yield.
 */
module Scan {
  import opened Paths
  import opened Trie
  import opened Links

  /** One item yielded by `_find`: an end offset and the word node ending there. */
  datatype Hit = Hit(end: nat, word: Path)

  /** The hits for one end offset, in the given order of words. */
  function HitsAt(end: nat, ws: seq<Path>): (r: seq<Hit>)
    ensures |r| == |ws|
    ensures forall i :: 0 <= i < |r| ==> r[i] == Hit(end, ws[i])
  {
    seq(|ws|, i requires 0 <= i < |ws| => Hit(end, ws[i]))
  }

  /**
   * Reference for the scan: for every end offset in increasing order, every
   * dictionary word ending there, longest first.
   */
  function Occurrences(t: Trie, s: string): seq<Hit>
    decreases |s|
  {
    if s == [] then [] else Occurrences(t, Parent(s)) + HitsAt(|s|, AllWordSuffixes(t, s))
  }

  /** One step of the scan keeps the cursor at the longest trie suffix of the text read so far. */
  lemma FindStep(t: Trie, text: string, i: nat, node: Path)
    requires Valid(t) && i < |text| && node == LongestTrieSuffix(t, text[..i])
    ensures GetNext(t, node, text[i]) == LongestTrieSuffix(t, text[..i + 1])
    ensures Occurrences(t, text[..i + 1]) ==
      Occurrences(t, text[..i]) + HitsAt(i + 1, GetWords(t, GetNext(t, node, text[i])))
  {
    var next := GetNext(t, node, text[i]);
    TakeSucc(text, i);
    GetNextIsLongest(t, node, text[i]);
    ExtendLongest(t, text[..i], text[i]);
    GetWordsIsAll(t, next);
    AllWordSuffixesWithinTrieSuffix(t, text[..i + 1]);
  }

  /**
   * ACDictionary._find: walk the transition function over the text and, after
   * each char, report every word node from `get_words` with the 1-based end.
   */
  method Find(t: Trie, text: string) returns (hits: seq<Hit>)
    requires Valid(t)
    ensures hits == Occurrences(t, text)
  {
    var node := Root;
    hits := [];
    for i := 0 to |text|
      invariant node == LongestTrieSuffix(t, text[..i])
      invariant hits == Occurrences(t, text[..i])
    {
      FindStep(t, text, i, node);
      node := GetNext(t, node, text[i]);
      hits := hits + HitsAt(i + 1, GetWords(t, node));
    }
    assert text[..|text|] == text;
  }

  /** `h` names a dictionary word that occurs in `s` ending at offset `h.end`. */
  ghost predicate SoundHit(t: Trie, s: string, h: Hit) {
    && IsWord(t, h.word)
    && 0 < |h.word| <= h.end <= |s|
    && s[h.end - |h.word|..h.end] == h.word
  }

  /** Every hit is a dictionary word that occurs in `s` and ends at the hit's end offset. */
  lemma {:induction false} OccurrencesSound(t: Trie, s: string)
    requires Valid(t)
    ensures forall i :: 0 <= i < |Occurrences(t, s)| ==> SoundHit(t, s, Occurrences(t, s)[i])
    decreases |s|
  {
    if s != [] {
      var prev := Occurrences(t, Parent(s));
      var hs := HitsAt(|s|, AllWordSuffixes(t, s));
      OccurrencesSound(t, Parent(s));
      forall i | 0 <= i < |prev|
        ensures SoundHit(t, s, prev[i])
      {
        SoundHitExtends(t, s, prev[i]);
      }
      forall i | 0 <= i < |hs|
        ensures SoundHit(t, s, hs[i])
      {
        WordSuffixHit(t, s, i);
      }
      assert Occurrences(t, s) == prev + hs;
    }
  }

  lemma SoundHitExtends(t: Trie, s: string, h: Hit)
    requires s != [] && SoundHit(t, Parent(s), h)
    ensures SoundHit(t, s, h)
  {
    SliceOfParent(s, h.end - |h.word|, h.end);
  }

  lemma WordSuffixHit(t: Trie, s: string, i: nat)
    requires Valid(t) && i < |AllWordSuffixes(t, s)|
    ensures SoundHit(t, s, Hit(|s|, AllWordSuffixes(t, s)[i]))
  {
    var w := AllWordSuffixes(t, s)[i];
    AllWordSuffixesExact(t, s);
    WordsNonEmpty(t, w);
  }

  lemma SliceOfParent(s: string, b: nat, e: nat)
    requires s != [] && b <= e <= |s| - 1
    ensures Parent(s)[b..e] == s[b..e]
  {
  }

  /** Hits come by increasing end offset and, for one end offset, by decreasing length. */
  lemma {:induction false} OccurrencesOrdered(t: Trie, s: string)
    requires Valid(t)
    ensures forall i, j :: 0 <= i < j < |Occurrences(t, s)| ==>
      var a, b := Occurrences(t, s)[i], Occurrences(t, s)[j];
      a.end < b.end || (a.end == b.end && |a.word| > |b.word|)
    decreases |s|
  {
    if s != [] {
      OccurrencesOrdered(t, Parent(s));
      OccurrencesSound(t, Parent(s));
      AllWordSuffixesExact(t, s);
    }
  }

  /** Every occurrence of a dictionary word in `s` is reported. */
  lemma {:induction false} OccurrencesComplete(t: Trie, s: string)
    requires Valid(t)
    ensures forall b, e :: 0 <= b < e <= |s| && IsWord(t, s[b..e]) ==> Hit(e, s[b..e]) in Occurrences(t, s)
    decreases |s|
  {
    if s != [] {
      var prev := Occurrences(t, Parent(s));
      var ws := AllWordSuffixes(t, s);
      OccurrencesComplete(t, Parent(s));
      AllWordSuffixesExact(t, s);
      forall b, e | 0 <= b < e <= |s| && IsWord(t, s[b..e])
        ensures Hit(e, s[b..e]) in Occurrences(t, s)
      {
        if e < |s| {
          SliceOfParent(s, b, e);
          assert Hit(e, s[b..e]) in prev;
        } else {
          assert s[b..e] == s[b..];
          assert s[b..] in ws;
          var k :| 0 <= k < |ws| && ws[k] == s[b..];
          assert HitsAt(|s|, ws)[k] == Hit(e, s[b..e]);
        }
      }
    }
  }

  /** ACMatch: the scanned text and the offsets `start` and `end`. */
  datatype Match = Match(text: string, start: int, end: int)

  /** Python's normalisation of one slice bound: negative counts from the end, then clamp. */
  function SliceBound(i: int, n: nat): (r: nat)
    ensures r <= n
    ensures 0 <= i <= n ==> r == i
    ensures i < 0 && 0 <= n + i ==> r == n + i
  {
    if i < 0 then (if i + n < 0 then 0 else i + n)
    else if i > n then n
    else i
  }

  /** Python's `s[a:b]`. */
  function PySlice(s: string, a: int, b: int): (r: string)
    ensures 0 <= a <= b <= |s| ==> r == s[a..b]
    ensures 0 <= b <= a ==> r == []
    ensures a < 0 && 0 <= |s| + a <= b <= |s| ==> r == s[|s| + a..b]
    ensures |r| <= |s|
  {
    var lo, hi := SliceBound(a, |s|), SliceBound(b, |s|);
    if lo < hi then s[lo..hi] else []
  }

  /** ACMatch.__str__: the matched slice of the text. */
  function MatchStr(m: Match): (r: string)
    ensures 0 <= m.start <= m.end <= |m.text| ==> r == m.text[m.start..m.end] && |r| == m.end - m.start
  {
    PySlice(m.text, m.start, m.end)
  }

  /** The match `finditer` builds from one hit: it starts `len(wnode)` before its end. */
  function ToMatch(t: Trie, text: string, h: Hit): Match
    requires Valid(t) && h.word in t.nodes
  {
    Match(text, h.end - Len(t, h.word), h.end)
  }

  /** Reference for `finditer`: one match per hit of the scan, in the same order. */
  function Matches(t: Trie, text: string): (ms: seq<Match>)
    requires Valid(t)
    ensures |ms| == |Occurrences(t, text)|
  {
    var hits := Occurrences(t, text);
    OccurrencesSound(t, text);
    seq(|hits|, i requires 0 <= i < |hits| => ToMatch(t, text, hits[i]))
  }

  /** `m` lies inside `text` and spells a dictionary word. */
  ghost predicate SoundMatch(t: Trie, text: string, m: Match) {
    m.text == text && 0 <= m.start < m.end <= |text| && IsWord(t, MatchStr(m))
  }

  /** The order of `finditer`: by end, then by start (so by decreasing length). */
  predicate MatchBefore(a: Match, b: Match) {
    a.end < b.end || (a.end == b.end && a.start < b.start)
  }

  /** The i-th match is built from the i-th hit and spells its word. */
  lemma MatchOfHit(t: Trie, text: string, i: nat)
    requires Valid(t) && i < |Occurrences(t, text)|
    ensures
      var h := Occurrences(t, text)[i];
      && Matches(t, text)[i] == Match(text, h.end - |h.word|, h.end)
      && MatchStr(Matches(t, text)[i]) == h.word
      && SoundMatch(t, text, Matches(t, text)[i])
  {
    OccurrencesSound(t, text);
  }

  /** Every match lies inside the text and spells a dictionary word. */
  lemma MatchesSound(t: Trie, text: string)
    requires Valid(t)
    ensures forall i :: 0 <= i < |Matches(t, text)| ==> SoundMatch(t, text, Matches(t, text)[i])
  {
    forall i | 0 <= i < |Matches(t, text)|
      ensures SoundMatch(t, text, Matches(t, text)[i])
    {
      MatchOfHit(t, text, i);
    }
  }

  /**
   * Matches come by increasing end, then by increasing start (decreasing
   * length), so no occurrence is reported twice.
   */
  lemma MatchesOrdered(t: Trie, text: string)
    requires Valid(t)
    ensures forall i, j :: 0 <= i < j < |Matches(t, text)| ==> MatchBefore(Matches(t, text)[i], Matches(t, text)[j])
  {
    var ms := Matches(t, text);
    OccurrencesOrdered(t, text);
    forall i, j | 0 <= i < j < |ms|
      ensures MatchBefore(ms[i], ms[j])
    {
      MatchOfHit(t, text, i);
      MatchOfHit(t, text, j);
    }
  }

  /** Every occurrence of a dictionary word in the text is matched. */
  lemma MatchesComplete(t: Trie, text: string)
    requires Valid(t)
    ensures forall b, e :: 0 <= b < e <= |text| && IsWord(t, text[b..e]) ==> Match(text, b, e) in Matches(t, text)
  {
    var hits := Occurrences(t, text);
    OccurrencesComplete(t, text);
    forall b, e | 0 <= b < e <= |text| && IsWord(t, text[b..e])
      ensures Match(text, b, e) in Matches(t, text)
    {
      var k :| 0 <= k < |hits| && hits[k] == Hit(e, text[b..e]);
      MatchOfHit(t, text, k);
    }
  }

  /** ACDictionary.finditer: one ACMatch per item of `_find`. */
  method FindIter(t: Trie, text: string) returns (ms: seq<Match>)
    requires Valid(t)
    ensures ms == Matches(t, text)
    ensures forall i :: 0 <= i < |ms| ==> SoundMatch(t, text, ms[i])
    ensures forall i, j :: 0 <= i < j < |ms| ==> MatchBefore(ms[i], ms[j])
    ensures forall b, e :: 0 <= b < e <= |text| && IsWord(t, text[b..e]) ==> Match(text, b, e) in ms
  {
    var hits := Find(t, text);
    OccurrencesSound(t, text);
    ms := seq(|hits|, i requires 0 <= i < |hits| => ToMatch(t, text, hits[i]));
    MatchesSound(t, text);
    MatchesOrdered(t, text);
    MatchesComplete(t, text);
  }

  /**
   * ACDictionary.findall: `str(wnode)` for each item of `_find`, which is the
   * `str` of the corresponding `finditer` match.
   */
  method FindAll(t: Trie, text: string) returns (words: seq<string>)
    requires Valid(t)
    ensures |words| == |Matches(t, text)|
    ensures forall i :: 0 <= i < |words| ==> words[i] == MatchStr(Matches(t, text)[i])
    ensures forall i :: 0 <= i < |words| ==> IsWord(t, words[i])
  {
    var hits := Find(t, text);
    OccurrencesSound(t, text);
    words := seq(|hits|, i requires 0 <= i < |hits| => GetChars(t, hits[i].word));
    forall i | 0 <= i < |words|
      ensures words[i] == MatchStr(Matches(t, text)[i])
    {
      MatchOfHit(t, text, i);
    }
  }
}
