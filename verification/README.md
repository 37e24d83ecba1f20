# Lexicon trie

A model of the Lexicon-Trie word list. It is a trie of characters in which each
root-to-node path spells a prefix, and a path ending at a flagged node spells a
stored word. The model covers both classes of the repository:

- `LexiconNode` holds a character, a word-end flag, a parent link and an ordered
  list of children.
- `LexiconTrie` holds the root and a word counter, and offers:
  - insertion, lookup of words and prefixes, and removal with upward clean-up;
  - in-order enumeration;
  - Hamming-distance correction suggestions;
  - a wildcard matcher for `*`, `?` and `_`.

The project has four modules:

- `Strings`: the string vocabulary. It has prefixes, Java's lexicographic order
  on strings, the substitution (Hamming) distance, and the set algebra of the
  upward clean-up (`Cut`).
- `Pattern`: the wildcard language as a relation `Matches(pattern, word)` on
  strings alone. It follows the matcher's own steps, including the look-ahead
  of `*`, so it is not glob matching: `*a` does not match `aba`.
- `Node`: `LexiconNode` as a class with a mutable children list and flag. Its
  methods are proved against functions on sequences (`InsertAt`/`InsertPos`,
  `RemoveFirst`).
- `Trie`: `LexiconTrie` as a class.
  - Ghost state holds the node set `Nodes`, the string `PathOf[n]` that each node
    spells, and a height bound.
  - The invariant `Valid()` says:
    - children point back to their parent;
    - each child spells its parent's string plus its own character;
    - every non-root node hangs in its parent's children;
    - sibling characters strictly ascend.
  - `Paths()` is the set of spelled strings (what `containsPrefix` answers).
    `Words()` is the set spelled by flagged nodes (what `containsWord`
    answers).
  - The three searches (`getWordsHelper`, `suggestCorrectionsHelper`,
    `matchRegexHelper`) are heap-reading functions. Each children loop is a
    function indexed by the child position. Each search is proved equal to a
    specification over `Words()`.

The code is modelled, not its documentation, where the two disagree:

- `addWord` refuses a word whose whole path already exists, even when that path
  does not end a stored word. Adding `car` after `card` returns false and leaves
  `car` unstored.
- `removeWord` answers true and uncounts a word whenever the path exists,
  flagged or not.
- The clean-up walks upward detaching every node left without children,
  including nodes that end other stored words. When it reaches a root left
  without children, it dereferences the root's null parent. `RemoveWord` then
  completes with `NullPointerException`, before the counter goes down.
- `numWords` equals the number of stored words across the constructor and
  `addWord` only.
- `_` is matched by splicing a stored character into the pattern. This is
  correct only when no stored character is itself `*`, `?` or `_`, which is the
  `WildcardFree()` precondition of `MatchRegex`.

Where the code departs from what its documentation evidently means, the model
also holds a corrected member, and the rows under "## Findings" pair the two.
The corrected members are:

- `AddWordCorrected`: stores a word whose path already exists.
- `RemoveWordCorrected`: removes stored words only.
- `CleanUpCorrected`: stops at a node that ends a word, and at the root.
- `AddWordsFromTokens`: loads every token with `AddWordCorrected` and counts
  only new words.

Across the constructor and these members, `numWords` stays equal to the number
of stored words. `NoDeadEnds()` says that every node other than the root leads
to a stored word. It holds for a new trie. The corrected members keep it, and
so do `addWord`, `removeWord` and the loading loop as written. In such a trie,
`containsPrefix` answers what its documentation promises: whether some stored
word begins with the prefix.

## Model

| member | source | states |
|---|---|---|
| Node.LexiconNode.constructor | LexiconNode.java:40-45 | a new node has no children and exactly the given character, flag and parent |
| Node.LexiconNode.AddChild | LexiconNode.java:52-63 | the new list is the old one with `newChild` inserted once, before the first child with a strictly greater character or at the end |
| Node.InsertPos | LexiconNode.java:54-62 | the insertion point has only characters `<=` the new one before it and a strictly greater one right after it, if any |
| Node.InsertAtFacts | LexiconNode.java:52-63 | inserting a node inserts its character at the same place in the character list; the members are the old ones plus the new node |
| Node.InsertKeepsSorted | LexiconNode.java:52-63 | addChild keeps an ascending children list ascending |
| Node.InsertKeepsStrictlySorted | LexiconNode.java:52-63 | inserting a character that no sibling carries keeps sibling characters strictly ascending, hence distinct |
| Node.LexiconNode.RemoveChild | LexiconNode.java:70-72 | the new list is `RemoveFirst(old list, exChild)`: the first occurrence, by identity, goes |
| Node.IndexOf | LexiconNode.java:70-72 | the index returned holds the node and no earlier index does |
| Node.RemoveFirst | LexiconNode.java:70-72 | an absent node leaves the list unchanged; otherwise exactly one entry goes |
| Node.RemoveFirstCuts | LexiconNode.java:70-72 | removal cuts out exactly the first occurrence, and the rest keep their order |
| Node.RemoveKeepsStrictlySorted | LexiconNode.java:70-72 | removal keeps sibling characters strictly ascending and takes out exactly the given node |
| Node.RemoveAtIndex | LexiconNode.java:70-72 | cutting out one index keeps the characters strictly ascending and leaves every other member |
| Node.LexiconNode.GetChild | LexiconNode.java:80-87 | null exactly when no child carries the character; otherwise the first child, in list order, that carries it |
| Node.LexiconNode.Iterator | LexiconNode.java:95-98 | the children in list order, in ascending character order when the list is sorted |
| Node.LexiconNode.HasChildren | LexiconNode.java:139-141 | true exactly when the children list is non-empty |
| Node.LexiconNode.SetIsFullWordNode | LexiconNode.java:121-123 | only the flag changes, and it takes the given value |
| Strings.Prefixes | LexiconTrie.java:47-63 | the set of all prefixes of a word, from the empty string to the word itself |
| Strings.PrefixesGrow | LexiconTrie.java:49-60 | each step of the addWord walk adds exactly one prefix |
| Strings.CutNothing | LexiconTrie.java:113 | a clean-up that stops at its starting node removes nothing |
| Strings.CutStep | LexiconTrie.java:113-116 | detaching a node and then cleaning up from its parent is cleaning up from the node |
| Strings.ChainStep | LexiconTrie.java:113-116 | below the depth where the clean-up stops, the detached chain was the only branch |
| Strings.LexLessIrreflexive | LexiconTrie.java:202-212 | no string comes before itself |
| Strings.LexLessTransitive | LexiconTrie.java:202-212 | the enumeration order is transitive |
| Strings.LexLessTotal | LexiconTrie.java:202-212 | any two distinct strings are ordered one way or the other |
| Strings.LexLessProperPrefix | LexiconTrie.java:205-209 | a word comes before the longer words that extend it, as the enumeration adds a word before descending |
| Strings.LexLessAt | LexiconTrie.java:204-210 | two strings that first differ at a position are ordered by their characters there, as the enumeration visits children in ascending order |
| Strings.IncreasingHasNoDuplicates | LexiconTrie.java:202-212 | a strictly increasing enumeration repeats no word |
| Strings.ConcatIncreasing | LexiconTrie.java:204-210 | an increasing run followed by a run of larger strings is increasing |
| Strings.HammingZero | LexiconTrie.java:229-264 | distance zero means equal strings |
| Strings.HammingSymmetric | LexiconTrie.java:229-264 | the distance does not depend on argument order |
| Strings.HammingBounded | LexiconTrie.java:229-264 | the distance never exceeds the length |
| Pattern.NextChar | LexiconTrie.java:301-307 | the look-ahead of `*`: the first character that is not `*`, or a blank when there is none |
| Pattern.FindNextChar | LexiconTrie.java:301-307 | the search loop returns exactly `NextChar` of the pattern |
| Pattern.FixedWidthMatches | LexiconTrie.java:318-334 | a pattern of literals and `_` matches exactly the words of its length that agree at every literal position |
| Pattern.LiteralMatches | LexiconTrie.java:326-334 | a pattern without wildcards matches itself and nothing else |
| Pattern.QuestionMarksMatch | LexiconTrie.java:323-325 | a pattern of `?` only matches exactly the words no longer than it |
| Pattern.QuestionMarkSplits | LexiconTrie.java:323-325 | after literals and `_`, a `?` matches what deleting it matches together with what replacing it by `_` matches |
| Pattern.StarsMatchAll | LexiconTrie.java:299-317 | a pattern of `*` only matches every word without a blank |
| Pattern.StarLookAheadIsNotGlob | LexiconTrie.java:308-316 | `*a` does not match `aba` but matches `ba` |
| Trie.LexiconTrie.constructor | LexiconTrie.java:32-35 | a new trie is valid, spells only the empty string, stores no word, counts zero and has no dead ends |
| Trie.LexiconTrie.ParentPath | LexiconTrie.java:114-115 | a non-root node has a parent in the trie that lists it, and spells its parent's string plus its own character |
| Trie.LexiconTrie.SamePath | LexiconTrie.java:51-54 | no two nodes spell the same string, since addWord attaches a child only where getChild found none |
| Trie.LexiconTrie.NodeOf | LexiconTrie.java:96-105 | every spelled string has a node that spells it |
| Trie.LexiconTrie.AncestorAt | LexiconTrie.java:96-105 | every prefix of a node's string is spelled by some node |
| Trie.LexiconTrie.PrefixClosed | LexiconTrie.java:179-181 | the spelled strings are closed under prefixes |
| Trie.LexiconTrie.LeavesKnown | LexiconTrie.java:49-60 | once the walk leaves the existing paths, every longer prefix of the word is new |
| Trie.LexiconTrie.ChildLookup | LexiconTrie.java:96-105 | a node's string plus a character is spelled exactly when a child carries that character |
| Trie.LexiconTrie.OwnWord | LexiconTrie.java:161-167 | a node's string is a stored word exactly when the node is flagged |
| Trie.LexiconTrie.WordsArePaths | LexiconTrie.java:161-181 | every stored word is a spelled prefix; the empty string is spelled and never stored |
| Trie.LexiconTrie.WordContinues | LexiconTrie.java:202-212 | a stored word below a node continues through one of its children |
| Trie.LexiconTrie.RootAlone | LexiconTrie.java:113-115 | a root without children is the whole trie, and stores nothing |
| Trie.LexiconTrie.FinalNode | LexiconTrie.java:96-105 | null exactly when the prefix is not spelled; otherwise the node that spells it, the root for the empty prefix |
| Trie.LexiconTrie.ContainsWord | LexiconTrie.java:161-167 | true exactly when the word is stored |
| Trie.LexiconTrie.ContainsPrefix | LexiconTrie.java:179-181 | true exactly when the prefix is spelled |
| Trie.NumWordsOfBuiltLexicon | LexiconTrie.java:149-151 | in a lexicon built by the constructor and any addWord calls, numWords() (`Trie.LexiconTrie.NumWords`, a read of the counter) answers the number of stored words |
| Trie.LexiconTrie.ContainsWordImpliesPrefix | LexiconTrie.java:161-181 | a stored word is a stored prefix, and the empty string is always a prefix |
| Trie.LexiconTrie.ThroughChild | LexiconTrie.java:204-209 | the words below a child, continuing its string, are the words below the node whose next letter is the child's |
| Trie.LexiconTrie.ChildWith | LexiconTrie.java:51-54 | a character present among the children is carried by exactly one child |
| Trie.LexiconTrie.NextLetter | LexiconTrie.java:204-209 | the next letter of every longer word below a node is a child's character |
| Trie.LexiconTrie.HereStored | LexiconTrie.java:292-296 | the only word below a node that ends right there is its own string, when it is flagged |
| Trie.LexiconTrie.GetWordsHelper | LexiconTrie.java:202-212 | exactly the words below the node longer than `wordSoFar`, in strictly increasing order |
| Trie.LexiconTrie.ChildWords | LexiconTrie.java:204-210 | the children loop from child `i` on yields exactly the words through those children, in strictly increasing order |
| Trie.LexiconTrie.JoinChildWords | LexiconTrie.java:204-210 | one child's words, its own first, followed by the later children's, stay complete and increasing |
| Trie.LexiconTrie.Iterator | LexiconTrie.java:188-193 | exactly the stored words, in strictly increasing lexicographic order |
| Trie.LexiconTrie.SuggestCorrectionsHelper | LexiconTrie.java:245-264 | exactly the words below the node whose rest has the length of `currTarget` and differs from it in at most `distToGo` places |
| Trie.LexiconTrie.SuggestChildren | LexiconTrie.java:256-262 | the children loop from child `i` on yields exactly those words through those children |
| Trie.LexiconTrie.JoinSuggestions | LexiconTrie.java:256-262 | one child's suggestions with its distance budget, joined with the later children's, are those through child `i` on |
| Trie.LexiconTrie.SuggestCorrections | LexiconTrie.java:229-233 | exactly the stored words of the target's length within `maxDistance` substitutions of it |
| Trie.LexiconTrie.ExactSuggestion | LexiconTrie.java:229-264 | distance zero suggests the target exactly when it is stored; a negative distance suggests nothing |
| Trie.LexiconTrie.MatchRegexHelper | LexiconTrie.java:291-335 | exactly the words below the node whose rest past `wordSoFar` matches `currPattern` |
| Trie.LexiconTrie.EmptyPatternCase | LexiconTrie.java:292-296 | an empty pattern matches the node's own word when it is flagged, and nothing else |
| Trie.LexiconTrie.StarCase | LexiconTrie.java:299-317 | `*` matches what the rest matches at the node, together with what the children loop matches |
| Trie.LexiconTrie.ChildCase | LexiconTrie.java:318-334 | `_` and a literal take one character of the word through a child |
| Trie.LexiconTrie.QuestionCase | LexiconTrie.java:323-325 | `?` matches the union of deleting it and replacing it by `_` |
| Trie.LexiconTrie.StarChildren | LexiconTrie.java:308-317 | each child continues with the star dropped when it carries the look-ahead character, and with the star kept otherwise |
| Trie.LexiconTrie.UnderscoreChildren | LexiconTrie.java:319-322 | splicing each child's character in place of `_` matches exactly the words whose next letter is a child's |
| Trie.LexiconTrie.LiteralChildren | LexiconTrie.java:327-333 | only the child carrying the literal continues |
| Trie.LexiconTrie.StarStep | LexiconTrie.java:308-317 | one child's `*` matches joined with the later children's |
| Trie.LexiconTrie.UnderscoreStep | LexiconTrie.java:319-322 | one spliced character's matches joined with the later children's |
| Trie.LexiconTrie.LiteralStep | LexiconTrie.java:327-333 | the literal's child's matches, or none, joined with the later children's |
| Trie.LexiconTrie.DescendMatch | LexiconTrie.java:308-334 | matching below a child with its character appended is matching below the node through that child |
| Trie.LexiconTrie.SpliceMatch | LexiconTrie.java:320-321 | matching the spliced pattern at the same node is matching the rest one character further on |
| Trie.LexiconTrie.MatchRegex | LexiconTrie.java:275-279 | exactly the stored words that the pattern matches |
| Trie.LexiconTrie.MatchLiteral | LexiconTrie.java:275-335 | a letters-only pattern finds itself exactly when stored, and nothing else |
| Trie.LexiconTrie.MatchAllStars | LexiconTrie.java:299-317 | a pattern of `*` only finds every stored word, when no stored word holds a blank |
| Trie.LexiconTrie.MatchQuestionMark | LexiconTrie.java:323-325 | the results for a `?` after literals and `_` are the union of those for deleting it and for replacing it by `_` |
| Trie.LexiconTrie.AddWord | LexiconTrie.java:47-63 | true exactly when the word's path did not exist. It then stores the word, counts it once and spells all its prefixes. Otherwise nothing changes. The count stays equal to the number of stored words, and a trie without dead ends keeps none |
| Trie.LexiconTrie.Advance | LexiconTrie.java:50-60 | one letter of the walk: a node is created exactly when its string is new, and only a created final letter stores and counts the word |
| Trie.LexiconTrie.AddNewChild | LexiconTrie.java:53-54 | the new leaf, flagged exactly when it holds the final letter, spells a new string. The node set grows by it and the invariant holds |
| Trie.LexiconTrie.AttachKeepsValid | LexiconTrie.java:53-54 | attaching a new leaf keeps the invariant and adds exactly its string (and word, when flagged) |
| Trie.LexiconTrie.AddWordsAsWritten | LexiconTrie.java:75-88 | every token is counted. The paths afterwards are the old ones plus every prefix of every token. The words are the old ones plus exactly the tokens whose path was new when their turn came (`NewPathTokens`). The counter moves by the number of words gained, while the answer does not. A trie without dead ends keeps none |
| Trie.LexiconTrie.AddToken | LexiconTrie.java:79-81 | one pass of the loop as written: the paths grow by the token's prefixes, the token is stored exactly when its path was new, and the counter moves with the stored words |
| Trie.TokenPrefixesMembers | LexiconTrie.java:75-88 | a string is a path created by the loading exactly when it is a prefix of some token |
| Trie.NewPathTokensMembers | LexiconTrie.java:47-63 | the loading as written stores a token exactly when, at its turn, it was no known path and no prefix of an earlier token |
| Trie.LexiconTrie.AddWordsFromTokens | LexiconTrie.java:65-88 | the count is the number of words gained, and the words afterwards are the old ones together with the non-empty tokens. The count stays equal to the number of stored words, and a trie without dead ends keeps none |
| Trie.LexiconTrie.LoadToken | LexiconTrie.java:79-82 | one pass of the loop: the words gained so far grow by the token when it is non-empty, the answer says whether it was new, the counter moves with it, and a trie without dead ends keeps none |
| Trie.NonEmptyTokensMembers | LexiconTrie.java:79-82 | the words the loop gathers are exactly the non-empty tokens |
| Trie.RepeatedTokenCountedTwice | LexiconTrie.java:75-88 | the loop as written, loading the tokens `a`, `a` into a new lexicon, answers 2 while the lexicon holds the one word `a` and its counter says 1 |
| Trie.LexiconTrie.Unique | LexiconTrie.java:51-54 | the node that spells a string is the only one |
| Trie.LexiconTrie.LeafEnds | LexiconTrie.java:113-115 | no spelled string strictly extends the string of a childless node |
| Trie.LexiconTrie.FlagKeepsValid | LexiconNode.java:121-123 | setting a non-root node's flag, or clearing any flag, keeps the invariant and the spelled strings. It adds or drops only that node's word |
| Trie.LexiconTrie.Unflag | LexiconTrie.java:135 | the node's word goes; nothing else is stored or spelled differently |
| Trie.LexiconTrie.DetachLeaf | LexiconTrie.java:114-115 | a childless node leaves the trie with its string and word; the count is unchanged |
| Trie.LexiconTrie.DetachKeepsValid | LexiconTrie.java:114-115 | detaching a childless node keeps the invariant and drops exactly its string and word |
| Trie.LexiconTrie.CleanUp | LexiconTrie.java:112-118 | the walk stops at a node with children, or throws at a childless root. Exactly the prefixes of the start string longer than the stop node's string are gone, words among them included, and they were the only branch below it |
| Trie.LexiconTrie.RemoveWord | LexiconTrie.java:132-141 | false with nothing changed exactly when the path is absent. Otherwise the word and the detached chain are gone and it answers true, uncounting one word even if the path was not a word. When the trie empties it throws before uncounting. Afterwards the word is not stored, and a trie without dead ends keeps none |
| Trie.LexiconTrie.Discard | LexiconTrie.java:135-136 | clearing the flag and cleaning up removes the word and exactly the detached chain, leaves the counter alone, and keeps a trie without dead ends free of them |
| Trie.LexiconTrie.StopKeepsLeads | LexiconTrie.java:112-118 | a clean-up that stops at a node with children leaves every remaining path leading to a remaining word |
| Strings.AllLeadToWordsCut | LexiconTrie.java:112-118 | cutting the detached chain and the removed word keeps every remaining string leading to a remaining word, when a path one letter longer than the stop survives |
| Trie.LexiconTrie.AdjustCount | LexiconTrie.java:132-141 | the counter moves by the given amount, and the nodes and strings stay as they are |
| Trie.LexiconTrie.PrefixOfStoredWordIsPath | LexiconTrie.java:47-63 | once `card` is stored, `car` is a spelled path, whether or not `car` is stored |
| Trie.RemovalLosesShorterWord | LexiconTrie.java:112-118 | removeWord("card") on a lexicon built by adding `car`, `card` and `x` answers true and leaves only `x` stored, with the counter at 2 |
| Trie.StopAtRoot | LexiconTrie.java:112-118 | in that lexicon, the only depth at which the clean-up along `card` can stop with a child left is the root's, which cuts `car` as well |
| Trie.LastWordRemovalThrows | LexiconTrie.java:112-118 | removeWord("a") on a lexicon built by adding only `a` throws `NullPointerException`, leaving no word stored and the counter at 1 |
| Trie.NonWordRemovalMiscounts | LexiconTrie.java:132-141 | removeWord("car") on a lexicon built by adding only `card` answers true and drops the counter to 0, while `card` stays stored |
| Trie.PrefixWordRefused | LexiconTrie.java:47-63 | addWord("car") on a lexicon built by adding only `card` answers false and leaves `car` unstored |
| Trie.LexiconTrie.Flag | LexiconNode.java:121-123 | setting the flag of an unflagged non-root node stores exactly its string, one word more, and keeps the spelled strings |
| Trie.LexiconTrie.AddWordCorrected | LexiconTrie.java:37-63 | true exactly when the word is non-empty and was not stored. Afterwards it is stored and all its prefixes are spelled. It is counted once, and the count equality and the absence of dead ends are kept |
| Trie.LexiconTrie.FlagPath | LexiconTrie.java:44-45 | on an existing path: true exactly when the word was not stored. Afterwards it is stored and counted once, and the nodes stay as they are |
| Trie.LexiconTrie.CleanUpCorrected | LexiconTrie.java:107-118 | the stored words and the count stay as they are, and the spelled strings only shrink. When the start node was the only dead end, none remains |
| Trie.LexiconTrie.Unstore | LexiconTrie.java:135-137 | at a stored word's node: exactly that word goes, one word fewer, one count fewer, and no dead end is left behind |
| Trie.LexiconTrie.ReachesWord | LexiconTrie.java:107-108 | in a trie without dead ends, every node other than the root starts a stored word |
| Trie.LexiconTrie.LeafIsWord | LexiconTrie.java:107-108 | when every non-empty spelled string starts a stored word, every childless node other than the root ends one |
| Trie.LexiconTrie.NoDeadEndsMeans | LexiconTrie.java:107-108 | a trie has no dead ends exactly when every non-empty string it spells starts a stored word |
| Trie.LexiconTrie.PrefixMeansWordBegins | LexiconTrie.java:170-181 | in a trie without dead ends, a string is a known prefix exactly when it is empty or some stored word begins with it |
| Strings.AllLeadToWordsGrow | LexiconTrie.java:47-63 | adding a word with all its prefixes keeps every spelled string leading to a stored word |
| Trie.LexiconTrie.RemoveWordCorrected | LexiconTrie.java:120-141 | true exactly when the word was stored. Afterwards exactly that word is gone, and nothing changes when the answer is false. The counter follows, and the count equality and the absence of dead ends are kept |

## Left out

- `addWordsFromFile`: the file and `Scanner` I/O, the `FileNotFoundException` answer -1 and `toLowerCase` are not modelled. Its loop is modelled over the sequence of tokens the scanner would return, already lowercased.
- Java's 32-bit `int` for `numWords` and `wordsAdded` is modelled as an unbounded integer; wrap-around after 2^31 - 1 words is not modelled.
- The getters `getNodeChar`, `getIsFullWordNode` and `getParent` are modelled as direct field reads. The character and the parent are constants, since the code never reassigns them.
- Java collection mechanics are not modelled. The `Iterator` objects, the `ArrayList` accumulator of the enumeration and the `HashSet` accumulators of the suggestions and the matcher become a returned `seq` and returned `set`s.
- Characters outside the Basic Multilingual Plane are not modelled. Java stores such a character as two `char`s, which take two trie levels and sort as surrogates. The model's `char` is one Unicode scalar value, so the order matches `String.compareTo` only for text made of single UTF-16 code units.
- The running-time claims in the documentation are not modelled.
- The `Lexicon` interface is not part of this model.
- Trie.LexiconTrie.Advance, Trie.LexiconTrie.AddNewChild, Trie.LexiconTrie.Unflag, Trie.LexiconTrie.Flag, Trie.LexiconTrie.DetachLeaf, Trie.LexiconTrie.AdjustCount and Trie.LexiconTrie.Discard are model steps, not Java methods. Each holds one or two statements of `addWord`, `removeWord` or `cleanUp` (or of their corrected forms) together with the ghost bookkeeping of `Nodes` and `PathOf`. Trie.LexiconTrie.AddToken is one pass of the loading loop as written. Trie.LexiconTrie.FlagPath, Trie.LexiconTrie.Unstore and Trie.LexiconTrie.LoadToken are steps of the corrected members.
- Trie.LexiconTrie.AddWordCorrected refuses the empty word, as the code does. The model's root never holds a flag.
- Trie.LexiconTrie.MatchRegex: requires that no stored character is `*`, `?` or `_`. The `_` case splices each child's character into the pattern and calls itself again at the same node with the same word so far. For a stored `_`, that rebuilds the very same pattern. For a stored `?`, the `?` case turns the spliced `?` back into `_`. Either way, the code recurses without end until the stack overflows. A stored `*` spliced this way makes the `_` act as a star at that node, so it also matches the node's own word and the words below it. None of this behaviour is modelled. The termination measure of Trie.LexiconTrie.MatchRegexHelper goes down at the `_` and `?` steps only because these characters are excluded.
- Trie.LexiconTrie.MatchAllStars: requires that no stored word contains a blank. The look-ahead character of an all-star pattern is a blank, so a stored blank drops a star.
- Trie.LexiconTrie.RemoveWord: does not relate `numWords` to the number of stored words. The code breaks that relation when it removes a non-word or when the clean-up detaches other words.

## Findings

| source | as written | input that shows it | evidently intended | confidence | as-written member | corrected member |
|---|---|---|---|---|---|---|
| LexiconTrie.java:75-88 | the answer counts every token read, whether or not `addWord` stored it | the tokens `a`, `a`: the answer is 2, but at most one word is new | the number of new words added, as the method's documentation says | not executed; high | Trie.LexiconTrie.AddWordsAsWritten, Trie.RepeatedTokenCountedTwice | Trie.LexiconTrie.AddWordsFromTokens |
| LexiconTrie.java:47-63 | a word whose whole path exists is refused, even when its last node ends no word | add `card`, then `car`: the answer is false and `car` is not stored | `car` is stored and true is returned; the documentation answers false only for a word already in the lexicon | not executed; high | Trie.LexiconTrie.AddWord, Trie.PrefixWordRefused | Trie.LexiconTrie.AddWordCorrected |
| LexiconTrie.java:132-141 | every existing path counts as a word: the answer is true and the counter goes down even when the path ends no word | store only `card`, then remove `car`: the answer is true, and the counter is 0 while `card` is still stored | false, with the lexicon unchanged, as the documentation says for a word not in the lexicon | not executed; high | Trie.LexiconTrie.RemoveWord, Trie.NonWordRemovalMiscounts | Trie.LexiconTrie.RemoveWordCorrected |
| LexiconTrie.java:112-118 | the clean-up detaches every node left without children, including nodes that end other stored words | store `car`, `card` and `x`, then remove `card`: `car` is gone too | only nodes that lead to no stored word are detached, as the clean-up's documentation says | not executed; high | Trie.LexiconTrie.CleanUp, Trie.RemovalLosesShorterWord | Trie.LexiconTrie.CleanUpCorrected |
| LexiconTrie.java:112-118 | at a root left without children, the clean-up dereferences the root's null parent | store only `a`, then remove `a`: `NullPointerException`, and the counter stays at 1 | the walk stops at the root, the answer is true and the counter drops to 0 | not executed; high | Trie.LexiconTrie.RemoveWord, Trie.LastWordRemovalThrows | Trie.LexiconTrie.RemoveWordCorrected |
