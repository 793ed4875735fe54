# Aho-Corasick dictionary search, modelled in Dafny

This project models `acsearch/aho_corasick.py`, a pure-Python Aho-Corasick
string search. An `ACDictionary` is built from a collection of words. It
stores them in a trie of `ACNode`s below an `ACRootNode`. A node's `suffix`
is its failure link and its `dict_suffix` is its output link. `get_next` is
the automaton's transition function. `findall` and `finditer` report every
occurrence of every dictionary word in a text, and `__iter__` yields the
words in sorted order.

Layout (one module per file):

- `wrappers.dfy`: `Option` stands for Python's `None`. `Result` stands for the `ValueError` of construction.
- `paths.dfy`: symbol sequences, suffixes, and Python's string order (`LexLess`).
- `trie.dfy`: the trie, `ACNode.add_child`, `get_chars`/`__str__` and `__len__`.
- `dictionary.dfy`: `ACDictionary.__init__`, `_add_word` and `__len__`.
- `links.dfy`: `suffix`, `get_next` (both classes), `dict_suffix` and `get_words`.
- `scan.dfy`: `_find`, `finditer`, `findall` and `ACMatch.__str__`.
- `enumeration.dfy`: `_nodes` and `__iter__`.
- `fixture.dfy`: the trie and text of `acsearch/tests/test_aho_corasick.py`, with the results its tests expect derived from the general contracts. Char-level versions of the references evaluate the link tests on concrete nodes.

Modelling choices:

- **Nodes are paths.** A node is identified with the string spelled on the
  path from the root to it. A trie is a map from paths to the fields
  `char`, `len` and `is_word`. A node's `parent` is its path without the
  last symbol. Its `children` are the one-symbol extensions present in the
  map. `Trie.Valid` is the shape every trie built by `add_child` has.
- **Truthiness.** The code relies on `__len__` for truthiness: the root has
  `len` 0, so it is false (`if node`, `while node`, `if self.parent`).
  Here that is an explicit test against the root path.
- **Links.** `suffix`, `get_next` and `dict_suffix` are written as the
  code's own mutual recursion. Each is then proved equal to an independent
  declarative reference: the longest suffix that is a trie node
  (`LongestTrieSuffix`), the longest suffix that is a word
  (`LongestWordSuffix`), or every word suffix, longest first
  (`AllWordSuffixes`).
- **The scan.** It is checked against `Scan.Occurrences`, a reference that
  lists, for each end offset, every word ending there.
- **Generators.** Every generator is modelled as the finite sequence it
  yields.
- **The walk.** `_nodes` is the explicit stack loop. A reference pre-order
  is parameterised by the order in which a node's children are pushed.

## Model

| member | source | states |
|---|---|---|
| `Trie.Empty` | acsearch/aho_corasick.py:193-201 | A fresh root is a well-formed trie. It has no other node and stores no word. |
| `Trie.AddChild` | acsearch/aho_corasick.py:114-133 | The result is the child of `p` for `c`, and its `len` is the parent's plus one. An existing child is returned as it was, with only `is_word` or-ed. Otherwise exactly one node is added. Every other node is unchanged, and the trie stays well-formed. |
| `Trie.AddChildKeepsWords` | acsearch/aho_corasick.py:123-131 | `add_child` with the default `is_word=False` never changes the set of words. |
| `Trie.PrefixClosed` | acsearch/aho_corasick.py:107-112 | Every prefix of a node is a node, because every node was created below an existing parent. |
| `Trie.WordsNonEmpty` | acsearch/aho_corasick.py:195-200 | The root is never a word, so every word has at least one symbol. |
| `Trie.GetChars` | acsearch/aho_corasick.py:178-184 | The chars collected along the parent chain are exactly the node's path. At the root the list is empty, as in `ACRootNode.get_chars`. |
| `Trie.Len` | acsearch/aho_corasick.py:189-190 | The stored `len` equals the length of `str(node)`. |
| `Dictionary.MarkWord` | acsearch/aho_corasick.py:45-48 | Setting `is_word` adds exactly that node to the words. It keeps the node set and the trie's shape. It changes nothing when the node already was a word. |
| `Dictionary.AddWord` | acsearch/aho_corasick.py:41-50 | The empty word raises `ValueError`, and no other word does. Otherwise the word and its prefixes become nodes, and the word set gains exactly this word. The result says whether the word was new. Re-adding a word leaves the trie unchanged and returns False. |
| `Dictionary.Build` | acsearch/aho_corasick.py:33-39 | Construction fails exactly when some word is empty. Otherwise the words of the trie are the distinct input words. Its nodes are their prefixes. `_len` (returned by `__len__`, lines 90-91) is the number of distinct words. |
| `Dictionary.BuildIgnoresDuplicates` | acsearch/aho_corasick.py:33-39 | Two word lists with the same distinct words build the same trie. Order and repetition do not matter. |
| `Links.LongestTrieSuffixIsLongest` | acsearch/aho_corasick.py:138-141 | The reference for failure links: the longest suffix that is a trie node, and no such suffix is longer. |
| `Links.ExtendLongest` | acsearch/aho_corasick.py:157-165 | Consider the longest trie suffix of `s + [c]`. Only the longest trie suffix of `s` determines it, so one node can stand for all the text read so far. |
| `Links.LongestWordSuffixIsLongest` | acsearch/aho_corasick.py:148-150 | The reference for output links: no word suffix is longer, and None means there is no word suffix at all. |
| `Links.AllWordSuffixesExact` | acsearch/aho_corasick.py:168-171 | The reference for `get_words` lists only word suffixes. Lengths strictly decrease, and every word suffix is included. |
| `Links.Suffix` | acsearch/aho_corasick.py:136-143 | `suffix` is a node and a suffix of the node's path. It is strictly shorter except at the root. |
| `Links.SuffixIsLongest` | acsearch/aho_corasick.py:136-143 | For a non-root node, `suffix` is the longest trie node that is a proper suffix of its path. |
| `Links.SuffixSpec` | acsearch/aho_corasick.py:137-143 | `suffix(root)` is the root. Every other node's `suffix` is the longest proper suffix that is a trie node, and it is shorter than the node. |
| `Links.SuffixChain` | acsearch/aho_corasick.py:142-143 | Following `suffix` from any node reaches the root in at most `len(node)` steps, each step strictly shorter. |
| `Links.GetNext` | acsearch/aho_corasick.py:157-165 | `get_next` terminates for every node and char. It returns a node that is a suffix of the node's path extended by the char. |
| `Links.GetNextIsLongest` | acsearch/aho_corasick.py:158-161 | `get_next(n, c)` is the longest suffix of `path(n) + [c]` that is a trie node. |
| `Links.GetNextSpec` | acsearch/aho_corasick.py:203-207 | It is the longest trie suffix. It is the child when one exists. At the root, an unknown char gives the root. The result is never more than one symbol longer than the node. |
| `Links.DictSuffix` | acsearch/aho_corasick.py:146-155 | A `dict_suffix` that is present is a word and a proper, shorter suffix of the node's path. |
| `Links.DictSuffixIsLongest` | acsearch/aho_corasick.py:146-155 | `dict_suffix` is None at the root, where it is preset at line 201. Elsewhere it is the longest proper suffix that is a word. |
| `Links.DictSuffixSpec` | acsearch/aho_corasick.py:148-150 | `dict_suffix` is the longest word that is a proper suffix. It is None exactly when there is no such word, or at the root. |
| `Links.GetWords` | acsearch/aho_corasick.py:167-176 | Every node yielded is a word no longer than the node. |
| `Links.GetWordsIsAll` | acsearch/aho_corasick.py:172-176 | The `dict_suffix` walk yields exactly the reference list of word suffixes, longest first. |
| `Links.GetWordsSpec` | acsearch/aho_corasick.py:168-171 | `get_words` yields exactly the word nodes that are suffixes of the node's path, each once. Lengths strictly decrease, and the node itself comes first when it is a word. |
| `Scan.FindStep` | acsearch/aho_corasick.py:69-72 | One transition keeps the cursor at the longest trie suffix of the text read so far. It extends the output by exactly the words ending at the new offset. |
| `Scan.Find` | acsearch/aho_corasick.py:67-72 | `_find` yields exactly the reference occurrences: for each end offset in turn, every word ending there. |
| `Scan.OccurrencesSound` | acsearch/aho_corasick.py:52-56 | Every reported word occurs in the text and ends at the reported offset. |
| `Scan.OccurrencesOrdered` | acsearch/aho_corasick.py:67-72 | Hits come by increasing end. At one end they come by strictly decreasing length, so none is repeated. |
| `Scan.OccurrencesComplete` | acsearch/aho_corasick.py:52-56 | Every occurrence of every dictionary word in the text is reported. |
| `Scan.PySlice` | acsearch/aho_corasick.py:101-102 | Python slicing: in-range bounds give the plain slice. Crossed bounds give the empty string. A negative start counts from the end. |
| `Scan.MatchStr` | acsearch/aho_corasick.py:101-102 | For in-range offsets, `str(match)` is the text between `start` and `end`, and its length is `end - start`. |
| `Scan.MatchOfHit` | acsearch/aho_corasick.py:63-65 | A match starts `len(wnode)` before its end. It lies in the text and spells exactly its word node. |
| `Scan.MatchesSound` | acsearch/aho_corasick.py:59-63 | Every match satisfies `0 <= start < end <= len(text)`, and `text[start:end]` is a dictionary word. |
| `Scan.MatchesOrdered` | acsearch/aho_corasick.py:63-65 | Matches come by increasing `end`, then increasing `start` (so decreasing length). No occurrence is reported twice. |
| `Scan.MatchesComplete` | acsearch/aho_corasick.py:59-63 | Every occurrence of a dictionary word in the text is matched. |
| `Scan.FindIter` | acsearch/aho_corasick.py:59-65 | `finditer` yields exactly the reference matches. They are sound, complete and ordered. |
| `Scan.FindAll` | acsearch/aho_corasick.py:52-57 | `findall` gives one word per match, in the same order. Each word is the `str` of the corresponding match and is a dictionary word. |
| `Enumeration.ChildChars` | acsearch/aho_corasick.py:78-80 | The keys of `node.children` are exactly the chars `c` for which `node + c` is a node. |
| `Enumeration.SortDescending` | acsearch/aho_corasick.py:78-79 | `sorted(..., reverse=True)` of distinct chars lists each one exactly once, in strictly descending order. |
| `Enumeration.PendingPush` | acsearch/aho_corasick.py:80-82 | Pushing children onto the stack schedules their subtrees ahead of everything below them, the last one pushed first. |
| `Enumeration.PopStep` | acsearch/aho_corasick.py:76-82 | Popping the top node yields it and replaces it by its children. What remains to be yielded is unchanged. |
| `Enumeration.Walk` | acsearch/aho_corasick.py:74-82 | The stack loop yields exactly the depth-first pre-order, for any order in which children are pushed. |
| `Enumeration.PreOrderExact` | acsearch/aho_corasick.py:74-82 | The pre-order from a node lists every node of its subtree exactly once, whatever the push order. |
| `Enumeration.PreOrderSorted` | acsearch/aho_corasick.py:78-79 | When children are pushed in descending order, the pre-order is strictly increasing in Python's string order. |
| `Enumeration.Nodes` | acsearch/aho_corasick.py:74-82 | `_nodes(sort=...)` yields every trie node exactly once. With `sort=True` the nodes come in strictly increasing string order. |
| `Enumeration.WordsInSorted` | acsearch/aho_corasick.py:86-88 | Keeping only the word nodes of a sorted listing keeps it sorted. |
| `Enumeration.WordsOfWalk` | acsearch/aho_corasick.py:84-88 | The word nodes of a sorted listing of all nodes are the stored words, sorted, each once. |
| `Enumeration.Iter` | acsearch/aho_corasick.py:84-88 | `__iter__` yields every stored word exactly once, in strictly increasing string order, so it yields `|Words(t)|` words. |
| `Enumeration.IterDictionary` | acsearch/aho_corasick.py:84-91 | On a dictionary whose `_len` counts its stored words, which `Build` ensures, `__iter__` yields exactly as many words as `__len__` reports. |
| `Enumeration.SortedUnique` | acsearch/aho_corasick.py:84-88 | Two strictly sorted lists with the same elements are equal, so the output of `__iter__` is `sorted` of the stored words and nothing else. |
| `Fixture.TestTrieValid` | acsearch/tests/test_aho_corasick.py:11-42 | The eleven nodes the node tests create have the char, parent and length that `add_child` gives them. |
| `Fixture.TestTrieWords` | acsearch/tests/test_aho_corasick.py:11-22 | The words of the test trie are exactly a, ab, bab, c, bca and caa. |
| `Fixture.TestBuild` | acsearch/tests/test_aho_corasick.py:171-189 | Building from the words a, ab, bab, c, bca and caa gives exactly the test trie, and `len(acd)` is 6. |
| `Fixture.TestNodes` | acsearch/tests/test_aho_corasick.py:175-180 | `_nodes(sort=True)` lists the nodes as '', a, ab, b, ba, bab, bc, bca, c, ca, caa. |
| `Fixture.TestIter` | acsearch/tests/test_aho_corasick.py:191-192 | `list(acd)` is a, ab, bab, bca, c, caa, which is `sorted(words)`. |
| `Fixture.TestSuffix` | acsearch/tests/test_aho_corasick.py:71-82 | `root.suffix` is the root, and the suffix of every other node of the test trie is the node test_suffix expects, e.g. bca to ca and caa to a. |
| `Fixture.TestDictSuffix` | acsearch/tests/test_aho_corasick.py:84-95 | `root.dict_suffix` is None, and every other node's `dict_suffix` is the word test_dict_suffix expects or None, e.g. bca to a and ab to None. |
| `Fixture.TestGetNext` | acsearch/tests/test_aho_corasick.py:97-151 | For each of the eleven nodes and each of a, b, c and the unknown x, `get_next` is the node test_get_next expects, e.g. bca with b to ab and any node with x to the root. |
| `Fixture.TestGetWords` | acsearch/tests/test_aho_corasick.py:153-166 | `get_words` of each node yields the word nodes test_get_words expects, longest first, e.g. bab gives bab then ab, and the root gives nothing. |
| `Fixture.TestOccurrences` | acsearch/tests/test_aho_corasick.py:194-206 | The reference scan of "abccabx" finds a, ab, c, c, a and ab, ending after offsets 1 to 6. |
| `Fixture.TestFindAll` | acsearch/tests/test_aho_corasick.py:194-196 | `findall('abccabx')` returns a, ab, c, c, a, ab. |
| `Fixture.TestFindIter` | acsearch/tests/test_aho_corasick.py:198-206 | `finditer('abccabx')` yields the spans (0, 1), (0, 2), (2, 3), (3, 4), (4, 5) and (4, 6), whose strings are a, ab, c, c, a and ab. |

## Left out

- `cached_property` (lines 11-25): `suffix` and `dict_suffix` are pure functions of the finished trie. Memoising them changes no result, and the source itself says they must not be read before the trie is complete.
- Generator laziness in `_find`, `finditer`, `_nodes`, `get_words` and `__iter__`: each is modelled as the finite sequence it yields. Suspending or abandoning a generator has no observable effect on the values.
- `_nodes(bf=True)`, the breadth-first walk: no operation of the dictionary uses it. Only the depth-first walk is modelled.
- Enumeration.Nodes: with `sort=False` the order is the insertion order of each `children` dict, which a map does not record. The caller supplies it as `order`, and for that case only "every node exactly once" is stated.
- `ACMatch` keeps a reference to the text object. Here a match holds the text as a value. Object identity (`assert_is` in the tests) corresponds to path equality, since each path has exactly one node.
- Scan.PySlice: the contract covers in-range bounds, crossed bounds and a negative start. Clamping of out-of-range bounds is in the body but not restated, because `finditer` only creates in-range matches.
- Words are sequences of chars. A Dafny `char` is a Unicode scalar value, so a Python word or text holding a lone surrogate such as `'\ud800'` has no counterpart in the model. Python's `for char in word` over a non-string iterable, and its hashability requirements, are not modelled.
- Running time (the linear-time scan) is not stated.
- `setup.py` is packaging only.
- test_dict_suffix asserts `node_ab` twice and never checks `node_b`. `Fixture.TestDictSuffix` covers every node, `node_b` included.
- test_add_child (lines 44-51) adds a node to the node fixture. `Trie.AddChild` states that behaviour for every trie.
- `_nodes(bf=True)` in test_init (lines 182-186) is left out with the breadth-first walk.
- Links.Suffix: Python's recursion limit is not modelled. The first read of `suffix` on a node recurses through `parent.suffix` (line 142) until it meets a cached link, two interpreter frames per level. The first direct read of a node about 500 or more levels deep in a fresh trie, as test_suffix reads `node.suffix`, raises `RecursionError` under CPython's default limit of 1000. Inside `findall` the links of each cursor's ancestors are mostly cached already, and the deep recursion comes from `dict_suffix`, `get_next` and `str(wnode)` instead (see the next lines). The Dafny function is total and returns the link at any depth.
- Links.DictSuffix: Python's recursion limit is not modelled. `dict_suffix` recurses once for each non-word suffix it passes (line 155), so a long chain of non-word suffixes can raise `RecursionError`, also from `get_words` inside `findall`. The Dafny function is total.
- Links.GetNext: Python's recursion limit is not modelled. `get_next` recurses once for each suffix link it follows (line 165), so a long chain of failed transitions can raise `RecursionError`, also inside `findall`. The Dafny function is total.
- Trie.GetChars: Python's recursion limit is not modelled. `get_chars` recurses once per level (line 182), so `str(node)` of a node deeper than about 1000 raises `RecursionError`, as `findall` (line 57) and `__iter__` (line 88) call it. The Dafny function is total.
