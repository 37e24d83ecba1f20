/** The lexicon trie: a root node with a blank character, and a word counter.
    A path from the root spells a prefix; a path ending at a flagged node
    spells a stored word. */
module Trie {
  import opened Strings
  import opened Pattern
  import opened Node

  /** How a call on the trie completes: normally with a result, or with the
      NullPointerException that the upward clean-up raises when it reaches a
      root left without children. */
  datatype Completion = Normal(value: bool) | NullPointerException

  class LexiconTrie {
    const root: LexiconNode
    var numWords: int

    /** The nodes of the trie. */
    ghost var Nodes: set<LexiconNode>
    /** The string each node spells: the characters on the path from the root. */
    ghost var PathOf: map<LexiconNode, string>
    /** A bound on the length of every spelled string. */
    ghost var Height: nat

    /** The shape of a trie: children point back to their parent and spell
        their parent's string plus their own character, every node but the root
        hangs in its parent's children, and sibling characters ascend strictly
        (so no two nodes spell the same string, see SamePath). */
    ghost predicate Valid()
      reads this`Nodes, this`PathOf, this`Height, Nodes
    {
      && Rooted()
      && SiblingsSorted()
      && ChildrenLinked()
      && ParentsLinked()
    }

    ghost predicate Rooted()
      reads this`Nodes, this`PathOf, this`Height, Nodes
    {
      && root in Nodes
      && root.parent == null
      && !root.isFullWordNode
      && PathOf.Keys == Nodes
      && PathOf[root] == []
      && (forall n | n in Nodes :: |PathOf[n]| <= Height)
    }

    ghost predicate SiblingsSorted()
      reads this`Nodes, this`PathOf, this`Height, Nodes
    {
      forall n {:trigger n.children} | n in Nodes :: StrictlySorted(CharsOf(n.children))
    }

    ghost predicate ChildrenLinked()
      reads this`Nodes, this`PathOf, this`Height, Nodes
    {
      forall n, c {:trigger c in n.children} | n in Nodes && c in n.children ::
        c in Nodes && c in PathOf && n in PathOf && c.parent == n && PathOf[c] == PathOf[n] + [c.nodeChar]
    }

    // Triggering on `n.parent` rather than on `n in Nodes` keeps the solver
    // from walking up the parent chain on its own.
    ghost predicate ParentsLinked()
      reads this`Nodes, this`PathOf, this`Height, Nodes
    {
      forall n {:trigger n.parent} | n in Nodes && n != root :: n.parent != null && n.parent in Nodes && n in n.parent.children
    }

    /** The strings spelled by some path from the root: the prefixes the trie
        knows. */
    ghost function Paths(): set<string>
      reads this`Nodes, this`PathOf
    {
      set n | n in Nodes && n in PathOf :: PathOf[n]
    }

    /** The stored words: the strings spelled by paths to flagged nodes. */
    ghost function Words(): set<string>
      reads this`Nodes, this`PathOf, Nodes
    {
      set n | n in Nodes && n in PathOf && n.isFullWordNode :: PathOf[n]
    }

    /** `w` is `wordSoFar` followed by a suffix that, spelled on from `n`,
        completes a stored word. */
    ghost predicate StoredBelow(n: LexiconNode, wordSoFar: string, w: string)
      requires Valid() && n in Nodes
      reads this`Nodes, this`PathOf, this`Height, Nodes
    {
      |wordSoFar| <= |w| && w[..|wordSoFar|] == wordSoFar && PathOf[n] + w[|wordSoFar|..] in Words()
    }

    /** No stored character is one of the matcher's wildcards. */
    ghost predicate WildcardFree()
      requires Valid()
      reads this`Nodes, this`PathOf, this`Height, Nodes
    {
      forall n, c | n in Nodes && c in n.children :: !IsWildcard(c.nodeChar)
    }

    constructor ()
      ensures Valid() && fresh(Nodes)
      ensures Paths() == {[]} && Words() == {} && numWords == 0
      ensures NoDeadEnds()
    {
      var r := new LexiconNode(' ', false, null);
      root := r;
      numWords := 0;
      Nodes := {r};
      PathOf := map[r := []];
      Height := 0;
    }

    // ----- Structural facts about valid tries -----

    lemma ParentPath(m: LexiconNode)
      requires Valid() && m in Nodes && m != root
      ensures m.parent != null && m.parent in Nodes && m in m.parent.children
      ensures PathOf[m] == PathOf[m.parent] + [m.nodeChar]
    {
    }

    /** Two nodes that spell the same string are the same node: their parents
        spell the same string, and siblings carry distinct characters. */
    lemma {:induction false} SamePath(a: LexiconNode, b: LexiconNode)
      requires Valid() && a in Nodes && b in Nodes && PathOf[a] == PathOf[b]
      ensures a == b
      decreases |PathOf[a]|
    {
      if a != root && b != root {
        ParentPath(a);
        ParentPath(b);
        var k := |PathOf[a]| - 1;
        assert PathOf[a.parent] == PathOf[a][..k] == PathOf[b.parent];
        assert a.nodeChar == PathOf[a][k] == b.nodeChar;
        SamePath(a.parent, b.parent);
        var cs := a.parent.children;
        var i :| 0 <= i < |cs| && cs[i] == a;
        var j :| 0 <= j < |cs| && cs[j] == b;
        assert CharsOf(cs)[i] == CharsOf(cs)[j];
      } else if a != root {
        ParentPath(a);
      } else if b != root {
        ParentPath(b);
      }
    }

    /** The node that spells `q`. */
    lemma NodeOf(q: string) returns (m: LexiconNode)
      requires Valid() && q in Paths()
      ensures m in Nodes && PathOf[m] == q
    {
      m :| m in Nodes && m in PathOf && PathOf[m] == q;
    }

    /** Every prefix of a spelled string is spelled too: walk up the parent
        links. */
    lemma {:induction false} AncestorAt(m: LexiconNode, k: nat) returns (a: LexiconNode)
      requires Valid() && m in Nodes && k <= |PathOf[m]|
      ensures a in Nodes && PathOf[a] == PathOf[m][..k]
      decreases |PathOf[m]|
    {
      if k == |PathOf[m]| {
        a := m;
      } else {
        assert m != root;
        ParentPath(m);
        a := AncestorAt(m.parent, k);
        assert PathOf[m][..k] == PathOf[m.parent][..k];
      }
    }

    lemma PrefixClosed(p: string, q: string)
      requires Valid() && q in Paths() && IsPrefix(p, q)
      ensures p in Paths()
    {
      var m := NodeOf(q);
      var a := AncestorAt(m, |p|);
      assert PathOf[a] == p;
    }

    /** Once a word's prefix of length `i` is no stored path, none of its longer
        prefixes is one either. */
    lemma LeavesKnown(known: set<string>, word: string, i: nat)
      requires Valid() && known <= Paths() && i <= |word| && word[..i] !in Paths()
      ensures forall k :: i <= k <= |word| ==> word[..k] !in known
    {
      forall k | i <= k <= |word|
        ensures word[..k] !in known
      {
        if word[..k] in known {
          PrefixClosed(word[..i], word[..k]);
        }
      }
    }

    /** A node spells its string followed by `x` exactly when it has a child
        with character `x`. */
    lemma ChildLookup(n: LexiconNode, x: char)
      requires Valid() && n in Nodes
      ensures PathOf[n] + [x] in Paths() <==> x in CharsOf(n.children)
    {
      if PathOf[n] + [x] in Paths() {
        var m := NodeOf(PathOf[n] + [x]);
        assert m != root;
        ParentPath(m);
        assert PathOf[m.parent] == PathOf[m][..|PathOf[m]| - 1] == PathOf[n];
        SamePath(m.parent, n);
        var i :| 0 <= i < |n.children| && n.children[i] == m;
        assert CharsOf(n.children)[i] == x;
      }
      if x in CharsOf(n.children) {
        var i :| 0 <= i < |n.children| && CharsOf(n.children)[i] == x;
        var c := n.children[i];
        assert c in n.children;
      }
    }

    /** A node's own string is stored exactly when the node is flagged. */
    lemma OwnWord(n: LexiconNode)
      requires Valid() && n in Nodes
      ensures PathOf[n] in Words() <==> n.isFullWordNode
    {
      if PathOf[n] in Words() {
        var m :| m in Nodes && m in PathOf && m.isFullWordNode && PathOf[m] == PathOf[n];
        SamePath(m, n);
      }
    }

    lemma WordsArePaths()
      requires Valid()
      ensures Words() <= Paths()
      ensures [] in Paths() && [] !in Words()
    {
      forall w | w in Words()
        ensures w in Paths()
      {
        var m :| m in Nodes && m in PathOf && m.isFullWordNode && PathOf[m] == w;
      }
      assert PathOf[root] == [];
      OwnWord(root);
    }

    /** A stored word that continues below `n` continues through the child
        whose character comes next. */
    lemma WordContinues(n: LexiconNode, s: string)
      requires Valid() && n in Nodes && s != [] && PathOf[n] + s in Words()
      ensures s[0] in CharsOf(n.children)
    {
      WordsArePaths();
      PrefixClosed(PathOf[n] + [s[0]], PathOf[n] + s);
      ChildLookup(n, s[0]);
    }

    /** A root without children is the whole trie. */
    lemma RootAlone()
      requires Valid() && root.children == []
      ensures Nodes == {root} && Paths() == {[]} && Words() == {}
    {
      forall m | m in Nodes
        ensures m == root
      {
        if m != root {
          ParentPath(m);
          var a := AncestorAt(m, 1);
          assert a != root;
          ParentPath(a);
          SamePath(a.parent, root);
        }
      }
      assert PathOf[root] == [];
      OwnWord(root);
    }

    // ----- Lookups -----

    /** The node reached by following `prefix` from the root, or null as soon
        as a letter has no matching child. */
    method FinalNode(prefix: string) returns (r: LexiconNode?)
      requires Valid()
      ensures r != null <==> prefix in Paths()
      ensures r != null ==> r in Nodes && PathOf[r] == prefix
      ensures prefix == [] ==> r == root
    {
      var finger: LexiconNode? := root;
      for i := 0 to |prefix|
        invariant finger != null && finger in Nodes && PathOf[finger] == prefix[..i]
        invariant i == 0 ==> finger == root
      {
        var child := finger.GetChild(prefix[i]);
        if child == null {
          ChildLookup(finger, prefix[i]);
          assert prefix[..i + 1] == prefix[..i] + [prefix[i]];
          if prefix in Paths() {
            PrefixClosed(prefix[..i + 1], prefix);
          }
          return null;
        }
        finger := child;
      }
      assert prefix[..|prefix|] == prefix;
      return finger;
    }

    method ContainsWord(word: string) returns (b: bool)
      requires Valid()
      ensures b <==> word in Words()
    {
      var endNode := FinalNode(word);
      if endNode != null {
        OwnWord(endNode);
        return endNode.isFullWordNode;
      }
      WordsArePaths();
      return false;
    }

    method ContainsPrefix(prefix: string) returns (b: bool)
      requires Valid()
      ensures b <==> prefix in Paths()
    {
      var endNode := FinalNode(prefix);
      return endNode != null;
    }

    /** Every stored word is a known prefix, and the empty prefix is always
        known. */
    lemma ContainsWordImpliesPrefix(w: string)
      requires Valid() && w in Words()
      ensures w in Paths() && [] in Paths()
    {
      WordsArePaths();
    }

    /** Once `card` is stored, `car` is spelled by a path whether or not it is
        stored itself. */
    lemma PrefixOfStoredWordIsPath()
      requires Valid() && "card" in Words()
      ensures "car" in Paths()
    {
      WordsArePaths();
      PrefixClosed("car", "card");
    }

    /** Stepping below `n` through its child `c` appends the child's character
        to the word built so far. */
    lemma ThroughChild(n: LexiconNode, c: LexiconNode, wordSoFar: string, w: string)
      requires Valid() && n in Nodes && c in n.children
      ensures c in Nodes
      ensures StoredBelow(c, wordSoFar + [c.nodeChar], w)
              <==> StoredBelow(n, wordSoFar, w) && |w| > |wordSoFar| && w[|wordSoFar|] == c.nodeChar
    {
      var k := |wordSoFar|;
      assert PathOf[c] == PathOf[n] + [c.nodeChar];
      if |w| > k {
        assert w[..k + 1] == w[..k] + [w[k]];
        if w[k] == c.nodeChar {
          assert w[k..] == [c.nodeChar] + w[k + 1..];
          assert PathOf[c] + w[k + 1..] == PathOf[n] + w[k..];
        }
      }
    }

    /** The one child of `n` that carries `x`. */
    lemma ChildWith(n: LexiconNode, x: char) returns (c: LexiconNode)
      requires Valid() && n in Nodes && x in CharsOf(n.children)
      ensures c in n.children && c.nodeChar == x
      ensures forall d | d in n.children && d.nodeChar == x :: d == c
    {
      var cs := n.children;
      var i :| 0 <= i < |cs| && CharsOf(cs)[i] == x;
      c := cs[i];
      forall d | d in cs && d.nodeChar == x
        ensures d == c
      {
        var j :| 0 <= j < |cs| && cs[j] == d;
        assert CharsOf(cs)[j] == CharsOf(cs)[i];
      }
    }

    /** The words stored below `n` that go on past the word built so far go on
        through one of its children. */
    lemma NextLetter(n: LexiconNode, wordSoFar: string)
      requires Valid() && n in Nodes
      ensures forall w | StoredBelow(n, wordSoFar, w) && |w| > |wordSoFar| :: w[|wordSoFar|] in CharsOf(n.children)
    {
      forall w | StoredBelow(n, wordSoFar, w) && |w| > |wordSoFar|
        ensures w[|wordSoFar|] in CharsOf(n.children)
      {
        WordContinues(n, w[|wordSoFar|..]);
      }
    }

    /** The word built so far is stored below `n` exactly when `n` is flagged. */
    lemma HereStored(n: LexiconNode, wordSoFar: string)
      requires Valid() && n in Nodes
      ensures forall w | |w| == |wordSoFar| :: StoredBelow(n, wordSoFar, w) <==> w == wordSoFar && n.isFullWordNode
    {
      OwnWord(n);
      forall w | |w| == |wordSoFar|
        ensures StoredBelow(n, wordSoFar, w) <==> w == wordSoFar && n.isFullWordNode
      {
        assert w[..|wordSoFar|] == w && w[|wordSoFar|..] == [];
        assert PathOf[n] + [] == PathOf[n];
      }
    }

    // ----- Enumeration -----

    /** The words below `currRoot` past `wordSoFar`, in the order the Java
        recursion appends them to its list. */
    function GetWordsHelper(currRoot: LexiconNode, wordSoFar: string): (words: seq<string>)
      requires Valid() && currRoot in Nodes
      reads this`Nodes, this`PathOf, this`Height, Nodes
      decreases Height - |PathOf[currRoot]|, 1, 0
      ensures forall w :: w in words <==> StoredBelow(currRoot, wordSoFar, w) && |w| > |wordSoFar|
      ensures StrictlyIncreasing(words)
    {
      NextLetter(currRoot, wordSoFar);
      if currRoot.HasChildren() then
        assert CharsOf(currRoot.children)[0..] == CharsOf(currRoot.children);
        ChildWords(currRoot, wordSoFar, 0)
      else []
    }

    /** The for-each loop of getWordsHelper from child `i` on. */
    function ChildWords(currRoot: LexiconNode, wordSoFar: string, i: nat): (words: seq<string>)
      requires Valid() && currRoot in Nodes && i <= |currRoot.children|
      reads this`Nodes, this`PathOf, this`Height, Nodes
      decreases Height - |PathOf[currRoot]|, 0, |currRoot.children| - i
      ensures forall w :: w in words <==> StoredBelow(currRoot, wordSoFar, w) && |w| > |wordSoFar|
                                          && w[|wordSoFar|] in CharsOf(currRoot.children)[i..]
      ensures StrictlyIncreasing(words)
    {
      if i == |currRoot.children| then []
      else
        var child := currRoot.children[i];
        assert child in currRoot.children;
        var currWord := wordSoFar + [child.nodeChar];
        var mine := (if child.isFullWordNode then [currWord] else []) + GetWordsHelper(child, currWord);
        var rest := ChildWords(currRoot, wordSoFar, i + 1);
        JoinChildWords(currRoot, wordSoFar, i, GetWordsHelper(child, currWord), mine, rest);
        mine + rest
    }

    lemma JoinChildWords(n: LexiconNode, wordSoFar: string, i: nat, below: seq<string>, mine: seq<string>, rest: seq<string>)
      requires Valid() && n in Nodes && i < |n.children|
      requires n.children[i] in Nodes
      requires forall w :: w in below <==> StoredBelow(n.children[i], wordSoFar + [n.children[i].nodeChar], w)
                                           && |w| > |wordSoFar| + 1
      requires StrictlyIncreasing(below)
      requires mine == (if n.children[i].isFullWordNode then [wordSoFar + [n.children[i].nodeChar]] else []) + below
      requires forall w :: w in rest <==> StoredBelow(n, wordSoFar, w) && |w| > |wordSoFar|
                                          && w[|wordSoFar|] in CharsOf(n.children)[i + 1..]
      requires StrictlyIncreasing(rest)
      ensures forall w :: w in mine + rest <==> StoredBelow(n, wordSoFar, w) && |w| > |wordSoFar|
                                                && w[|wordSoFar|] in CharsOf(n.children)[i..]
      ensures StrictlyIncreasing(mine + rest)
    {
      var c := n.children[i];
      var k := |wordSoFar|;
      var cw := wordSoFar + [c.nodeChar];
      var cs := CharsOf(n.children);
      CharsOfAt(n.children);
      assert cs[i..] == [c.nodeChar] + cs[i + 1..];
      HereStored(c, cw);
      forall w
        ensures w in mine <==> StoredBelow(n, wordSoFar, w) && |w| > k && w[k] == c.nodeChar
      {
        ThroughChild(n, c, wordSoFar, w);
      }
      if c.isFullWordNode {
        forall y | y in below
          ensures LexLess(cw, y)
        {
          LexLessProperPrefix(cw, y);
        }
        ConcatIncreasing([cw], below);
      }
      forall x, y | x in mine && y in rest
        ensures LexLess(x, y)
      {
        var j :| i + 1 <= j < |cs| && cs[j] == y[k];
        assert x[..k] == wordSoFar == y[..k];
        LexLessAt(x, y, k);
      }
      ConcatIncreasing(mine, rest);
    }

    /** Java's iterator(): every stored word, in strictly increasing
        lexicographic order. */
    function Iterator(): (words: seq<string>)
      requires Valid()
      reads this`Nodes, this`PathOf, this`Height, Nodes
      ensures forall w :: w in words <==> w in Words()
      ensures StrictlyIncreasing(words)
    {
      WordsArePaths();
      assert forall w :: w[..0] == [] && w[0..] == w && PathOf[root] + w == w;
      GetWordsHelper(root, [])
    }

    // ----- Correction suggestions -----

    /** `w` is a word stored below `n` that continues `wordSoFar` with as many
        characters as `target` has, and differs from `target` in at most
        `distToGo` of them. */
    ghost predicate WithinDistance(n: LexiconNode, wordSoFar: string, target: string, distToGo: int, w: string)
      requires Valid() && n in Nodes
      reads this`Nodes, this`PathOf, this`Height, Nodes
    {
      StoredBelow(n, wordSoFar, w) && |w| == |wordSoFar| + |target| && Hamming(w[|wordSoFar|..], target) <= distToGo
    }

    /** The suggestions below `currRoot` for the rest `currTarget` of the
        target, with `distToGo` differences still allowed. */
    function SuggestCorrectionsHelper(currTarget: string, distToGo: int, currRoot: LexiconNode, wordSoFar: string)
      : (suggestions: set<string>)
      requires Valid() && currRoot in Nodes
      reads this`Nodes, this`PathOf, this`Height, Nodes
      decreases |currTarget|, 1, 0
      ensures forall w :: w in suggestions <==> WithinDistance(currRoot, wordSoFar, currTarget, distToGo, w)
    {
      HereStored(currRoot, wordSoFar);
      if distToGo < 0 then {}
      else if currTarget == [] then
        assert forall w: string | |w| == |wordSoFar| :: w[|wordSoFar|..] == [];
        if currRoot.isFullWordNode then {wordSoFar} else {}
      else
        NextLetter(currRoot, wordSoFar);
        assert CharsOf(currRoot.children)[0..] == CharsOf(currRoot.children);
        SuggestChildren(currTarget, distToGo, currRoot, wordSoFar, 0)
    }

    /** The for-each loop of suggestCorrectionsHelper from child `i` on. */
    function SuggestChildren(currTarget: string, distToGo: int, currRoot: LexiconNode, wordSoFar: string, i: nat)
      : (suggestions: set<string>)
      requires Valid() && currRoot in Nodes && currTarget != [] && i <= |currRoot.children|
      reads this`Nodes, this`PathOf, this`Height, Nodes
      decreases |currTarget|, 0, |currRoot.children| - i
      ensures forall w :: w in suggestions <==> WithinDistance(currRoot, wordSoFar, currTarget, distToGo, w)
                                                && |w| > |wordSoFar|
                                                && w[|wordSoFar|] in CharsOf(currRoot.children)[i..]
    {
      if i == |currRoot.children| then {}
      else
        var child := currRoot.children[i];
        assert child in currRoot.children;
        var currWord := wordSoFar + [child.nodeChar];
        var currDistToGo := if child.nodeChar != currTarget[0] then distToGo - 1 else distToGo;
        var mine := SuggestCorrectionsHelper(currTarget[1..], currDistToGo, child, currWord);
        var rest := SuggestChildren(currTarget, distToGo, currRoot, wordSoFar, i + 1);
        JoinSuggestions(currTarget, distToGo, currRoot, wordSoFar, i, mine, rest);
        mine + rest
    }

    lemma JoinSuggestions(currTarget: string, distToGo: int, n: LexiconNode, wordSoFar: string, i: nat,
                          mine: set<string>, rest: set<string>)
      requires Valid() && n in Nodes && currTarget != [] && i < |n.children| && n.children[i] in Nodes
      requires forall w :: w in mine <==>
        WithinDistance(n.children[i], wordSoFar + [n.children[i].nodeChar], currTarget[1..],
                       if n.children[i].nodeChar != currTarget[0] then distToGo - 1 else distToGo, w)
      requires forall w :: w in rest <==> WithinDistance(n, wordSoFar, currTarget, distToGo, w) && |w| > |wordSoFar|
                                          && w[|wordSoFar|] in CharsOf(n.children)[i + 1..]
      ensures forall w :: w in mine + rest <==> WithinDistance(n, wordSoFar, currTarget, distToGo, w) && |w| > |wordSoFar|
                                                && w[|wordSoFar|] in CharsOf(n.children)[i..]
    {
      var c := n.children[i];
      var k := |wordSoFar|;
      assert CharsOf(n.children)[i..] == [c.nodeChar] + CharsOf(n.children)[i + 1..];
      forall w
        ensures w in mine <==> WithinDistance(n, wordSoFar, currTarget, distToGo, w) && |w| > k && w[k] == c.nodeChar
      {
        ThroughChild(n, c, wordSoFar, w);
        if |w| == k + |currTarget| {
          assert w[k..][1..] == w[k + 1..];
        }
      }
    }

    /** Java's suggestCorrections: the stored words of the target's length
        that differ from it in at most `maxDistance` positions. */
    function SuggestCorrections(target: string, maxDistance: int): (suggestions: set<string>)
      requires Valid()
      reads this`Nodes, this`PathOf, this`Height, Nodes
      ensures forall w :: w in suggestions <==> w in Words() && |w| == |target| && Hamming(w, target) <= maxDistance
    {
      assert forall w :: w[..0] == [] && w[0..] == w && PathOf[root] + w == w;
      SuggestCorrectionsHelper(target, maxDistance, root, [])
    }

    /** With no difference allowed, the only suggestion is the target itself
        when it is stored; a negative allowance suggests nothing. */
    lemma ExactSuggestion(target: string, maxDistance: int)
      requires Valid()
      ensures maxDistance == 0 ==> SuggestCorrections(target, maxDistance) == if target in Words() then {target} else {}
      ensures maxDistance < 0 ==> SuggestCorrections(target, maxDistance) == {}
    {
      forall w | |w| == |target|
        ensures Hamming(w, target) <= 0 <==> w == target
      {
        HammingZero(w, target);
      }
    }

    // ----- Wildcard matching -----

    /** `w` is a word stored below `n` whose part past `wordSoFar` matches
        `pattern`. */
    ghost predicate MatchedBelow(n: LexiconNode, wordSoFar: string, pattern: string, w: string)
      requires Valid() && n in Nodes
      reads this`Nodes, this`PathOf, this`Height, Nodes
    {
      StoredBelow(n, wordSoFar, w) && Matches(pattern, w[|wordSoFar|..])
    }

    /** The words below `myRoot` whose rest matches `currPattern`. */
    function MatchRegexHelper(currPattern: string, myRoot: LexiconNode, wordSoFar: string): (matched: set<string>)
      requires Valid() && WildcardFree() && myRoot in Nodes
      reads this`Nodes, this`PathOf, this`Height, Nodes
      decreases Height - |PathOf[myRoot]|, |currPattern|, Rank(currPattern), 1, 0
      ensures forall w :: w in matched <==> MatchedBelow(myRoot, wordSoFar, currPattern, w)
    {
      if currPattern == [] then
        var matched := if myRoot.isFullWordNode then {wordSoFar} else {};
        EmptyPatternCase(myRoot, wordSoFar, matched);
        matched
      else
        var charOfInt := currPattern[0];
        if charOfInt == '*' then
          var skipped := MatchRegexHelper(currPattern[1..], myRoot, wordSoFar);
          var consumed := StarChildren(currPattern, NextChar(currPattern), myRoot, wordSoFar, 0);
          StarCase(myRoot, wordSoFar, currPattern, skipped, consumed);
          skipped + consumed
        else if charOfInt == '_' then
          var matched := UnderscoreChildren(currPattern, myRoot, wordSoFar, 0);
          ChildCase(myRoot, wordSoFar, currPattern, matched);
          matched
        else if charOfInt == '?' then
          var dropped := MatchRegexHelper(currPattern[1..], myRoot, wordSoFar);
          var single := MatchRegexHelper(['_'] + currPattern[1..], myRoot, wordSoFar);
          QuestionCase(myRoot, wordSoFar, currPattern, dropped, single);
          dropped + single
        else
          var matched := LiteralChildren(currPattern, myRoot, wordSoFar, 0);
          ChildCase(myRoot, wordSoFar, currPattern, matched);
          matched
    }

    lemma EmptyPatternCase(n: LexiconNode, wordSoFar: string, matched: set<string>)
      requires Valid() && n in Nodes
      requires matched == if n.isFullWordNode then {wordSoFar} else {}
      ensures forall w :: w in matched <==> MatchedBelow(n, wordSoFar, [], w)
    {
      HereStored(n, wordSoFar);
      forall w | StoredBelow(n, wordSoFar, w)
        ensures Matches([], w[|wordSoFar|..]) <==> |w| == |wordSoFar|
      {
      }
    }

    lemma StarCase(n: LexiconNode, wordSoFar: string, pattern: string, skipped: set<string>, consumed: set<string>)
      requires Valid() && n in Nodes && pattern != [] && pattern[0] == '*'
      requires forall w :: w in skipped <==> MatchedBelow(n, wordSoFar, pattern[1..], w)
      requires forall w :: w in consumed <==>
        StoredBelow(n, wordSoFar, w) && |w| > |wordSoFar| && w[|wordSoFar|] in CharsOf(n.children)[0..]
        && Matches(AfterStar(pattern, NextChar(pattern), w[|wordSoFar|]), w[|wordSoFar| + 1..])
      ensures forall w :: w in skipped + consumed <==> MatchedBelow(n, wordSoFar, pattern, w)
    {
      var k := |wordSoFar|;
      NextLetter(n, wordSoFar);
      assert CharsOf(n.children)[0..] == CharsOf(n.children);
      forall w | StoredBelow(n, wordSoFar, w) && |w| > k
        ensures w[k..] != [] && w[k..][0] == w[k] && w[k..][1..] == w[k + 1..]
      {
      }
    }

    /** The `_` and literal cases: one character of the word is taken by a
        child. */
    lemma ChildCase(n: LexiconNode, wordSoFar: string, pattern: string, matched: set<string>)
      requires Valid() && n in Nodes && pattern != [] && (pattern[0] == '_' || !IsWildcard(pattern[0]))
      requires forall w :: w in matched <==>
        StoredBelow(n, wordSoFar, w) && |w| > |wordSoFar| && w[|wordSoFar|] in CharsOf(n.children)[0..]
        && (pattern[0] != '_' ==> w[|wordSoFar|] == pattern[0]) && Matches(pattern[1..], w[|wordSoFar| + 1..])
      ensures forall w :: w in matched <==> MatchedBelow(n, wordSoFar, pattern, w)
    {
      var k := |wordSoFar|;
      NextLetter(n, wordSoFar);
      assert CharsOf(n.children)[0..] == CharsOf(n.children);
      forall w | StoredBelow(n, wordSoFar, w) && |w| > k
        ensures w[k..] != [] && w[k..][0] == w[k] && w[k..][1..] == w[k + 1..]
      {
      }
    }

    lemma QuestionCase(n: LexiconNode, wordSoFar: string, pattern: string, dropped: set<string>, single: set<string>)
      requires Valid() && n in Nodes && pattern != [] && pattern[0] == '?'
      requires forall w :: w in dropped <==> MatchedBelow(n, wordSoFar, pattern[1..], w)
      requires forall w :: w in single <==> MatchedBelow(n, wordSoFar, ['_'] + pattern[1..], w)
      ensures forall w :: w in dropped + single <==> MatchedBelow(n, wordSoFar, pattern, w)
    {
    }

    /** The children loop of the `*` case from child `i` on: each child either
        consumes the star's look-ahead character `nextChar`, dropping the star,
        or is absorbed by the star. */
    function StarChildren(currPattern: string, nextChar: char, myRoot: LexiconNode, wordSoFar: string, i: nat)
      : (matched: set<string>)
      requires Valid() && WildcardFree() && myRoot in Nodes && i <= |myRoot.children|
      requires currPattern != [] && currPattern[0] == '*'
      reads this`Nodes, this`PathOf, this`Height, Nodes
      decreases Height - |PathOf[myRoot]|, |currPattern|, Rank(currPattern), 0, |myRoot.children| - i
      ensures forall w :: w in matched <==>
        StoredBelow(myRoot, wordSoFar, w) && |w| > |wordSoFar| && w[|wordSoFar|] in CharsOf(myRoot.children)[i..]
        && Matches(AfterStar(currPattern, nextChar, w[|wordSoFar|]), w[|wordSoFar| + 1..])
    {
      if i == |myRoot.children| then {}
      else
        var child := myRoot.children[i];
        assert child in myRoot.children;
        var currWord := wordSoFar + [child.nodeChar];
        var nextPattern := AfterStar(currPattern, nextChar, child.nodeChar);
        var mine := MatchRegexHelper(nextPattern, child, currWord);
        var later := StarChildren(currPattern, nextChar, myRoot, wordSoFar, i + 1);
        StarStep(myRoot, wordSoFar, i, currPattern, nextChar, mine, later);
        mine + later
    }

    /** The children loop of the `_` case from child `i` on: the `_` is
        replaced by the child's character and matched again at the same node. */
    function UnderscoreChildren(currPattern: string, myRoot: LexiconNode, wordSoFar: string, i: nat)
      : (matched: set<string>)
      requires Valid() && WildcardFree() && myRoot in Nodes && i <= |myRoot.children|
      requires currPattern != [] && currPattern[0] == '_'
      reads this`Nodes, this`PathOf, this`Height, Nodes
      decreases Height - |PathOf[myRoot]|, |currPattern|, Rank(currPattern), 0, |myRoot.children| - i
      ensures forall w :: w in matched <==>
        StoredBelow(myRoot, wordSoFar, w) && |w| > |wordSoFar| && w[|wordSoFar|] in CharsOf(myRoot.children)[i..]
        && Matches(currPattern[1..], w[|wordSoFar| + 1..])
    {
      if i == |myRoot.children| then {}
      else
        var child := myRoot.children[i];
        assert child in myRoot.children;
        var editedPattern := [child.nodeChar] + currPattern[1..];
        assert editedPattern[0] == child.nodeChar && editedPattern[1..] == currPattern[1..];
        var mine := MatchRegexHelper(editedPattern, myRoot, wordSoFar);
        var later := UnderscoreChildren(currPattern, myRoot, wordSoFar, i + 1);
        UnderscoreStep(myRoot, wordSoFar, i, currPattern[1..], mine, later);
        mine + later
    }

    /** The children loop of the literal case from child `i` on: only the child
        carrying the literal goes on. */
    function LiteralChildren(currPattern: string, myRoot: LexiconNode, wordSoFar: string, i: nat)
      : (matched: set<string>)
      requires Valid() && WildcardFree() && myRoot in Nodes && i <= |myRoot.children|
      requires currPattern != [] && !IsWildcard(currPattern[0])
      reads this`Nodes, this`PathOf, this`Height, Nodes
      decreases Height - |PathOf[myRoot]|, |currPattern|, Rank(currPattern), 0, |myRoot.children| - i
      ensures forall w :: w in matched <==>
        StoredBelow(myRoot, wordSoFar, w) && |w| > |wordSoFar| && w[|wordSoFar|] in CharsOf(myRoot.children)[i..]
        && w[|wordSoFar|] == currPattern[0] && Matches(currPattern[1..], w[|wordSoFar| + 1..])
    {
      if i == |myRoot.children| then {}
      else
        var child := myRoot.children[i];
        assert child in myRoot.children;
        var charOfInt := currPattern[0];
        if charOfInt == child.nodeChar then
          var mine := MatchRegexHelper(currPattern[1..], child, wordSoFar + [charOfInt]);
          var later := LiteralChildren(currPattern, myRoot, wordSoFar, i + 1);
          LiteralStep(myRoot, wordSoFar, i, currPattern, mine, later);
          mine + later
        else
          var later := LiteralChildren(currPattern, myRoot, wordSoFar, i + 1);
          LiteralStep(myRoot, wordSoFar, i, currPattern, {}, later);
          later
    }
    /** Java's matchRegex: the stored words that match `pattern`. Since the
        `_` case splices stored characters into the pattern, no stored
        character may itself be a wildcard. */
    function MatchRegex(pattern: string): (matched: set<string>)
      requires Valid() && WildcardFree()
      reads this`Nodes, this`PathOf, this`Height, Nodes
      ensures forall w :: w in matched <==> w in Words() && Matches(pattern, w)
    {
      assert forall w :: w[..0] == [] && w[0..] == w && PathOf[root] + w == w;
      MatchRegexHelper(pattern, root, [])
    }

    /** A pattern without wildcards finds itself when stored, and nothing
        else. */
    lemma MatchLiteral(pattern: string)
      requires Valid() && WildcardFree()
      requires forall i :: 0 <= i < |pattern| ==> !IsWildcard(pattern[i])
      ensures MatchRegex(pattern) == if pattern in Words() then {pattern} else {}
    {
      forall w
        ensures Matches(pattern, w) <==> w == pattern
      {
        LiteralMatches(pattern, w);
      }
    }

    /** A pattern of stars finds every stored word, as long as no stored word
        contains the blank that the stars look ahead to. */
    lemma MatchAllStars(pattern: string)
      requires Valid() && WildcardFree()
      requires pattern != [] && forall i :: 0 <= i < |pattern| ==> pattern[i] == '*'
      requires forall w | w in Words() :: forall i :: 0 <= i < |w| ==> w[i] != ' '
      ensures MatchRegex(pattern) == Words()
    {
      forall w | w in Words()
        ensures Matches(pattern, w)
      {
        StarsMatchAll(pattern, w);
      }
    }

    /** After literals and `_` only, a `?` finds the union of what deleting it
        finds and what replacing it by `_` finds. */
    lemma MatchQuestionMark(a: string, b: string)
      requires Valid() && WildcardFree()
      requires forall i :: 0 <= i < |a| ==> a[i] != '*' && a[i] != '?'
      ensures MatchRegex(a + ['?'] + b) == MatchRegex(a + b) + MatchRegex(a + ['_'] + b)
    {
      forall w
        ensures Matches(a + ['?'] + b, w) <==> Matches(a + b, w) || Matches(a + ['_'] + b, w)
      {
        QuestionMarkSplits(a, b, w);
      }
    }

    /** What one child contributes: the words that step down through it and
        match the pattern the child is given. */
    lemma DescendMatch(n: LexiconNode, wordSoFar: string, i: nat, pattern: string, mine: set<string>)
      requires Valid() && n in Nodes && i < |n.children| && n.children[i] in Nodes
      requires forall w :: w in mine <==> MatchedBelow(n.children[i], wordSoFar + [n.children[i].nodeChar], pattern, w)
      ensures forall w :: w in mine <==> StoredBelow(n, wordSoFar, w) && |w| > |wordSoFar|
                                         && w[|wordSoFar|] == n.children[i].nodeChar && Matches(pattern, w[|wordSoFar| + 1..])
    {
      forall w
        ensures w in mine <==> StoredBelow(n, wordSoFar, w) && |w| > |wordSoFar|
                               && w[|wordSoFar|] == n.children[i].nodeChar && Matches(pattern, w[|wordSoFar| + 1..])
      {
        ThroughChild(n, n.children[i], wordSoFar, w);
      }
    }

    /** The `*` children loop at child `i`: the child's words joined with the
        later children's. */
    lemma StarStep(n: LexiconNode, wordSoFar: string, i: nat, pattern: string, nextChar: char,
                   mine: set<string>, later: set<string>)
      requires Valid() && n in Nodes && i < |n.children| && n.children[i] in Nodes && pattern != []
      requires forall w :: w in mine <==>
        MatchedBelow(n.children[i], wordSoFar + [n.children[i].nodeChar],
                     AfterStar(pattern, nextChar, n.children[i].nodeChar), w)
      requires forall w :: w in later <==>
        StoredBelow(n, wordSoFar, w) && |w| > |wordSoFar| && w[|wordSoFar|] in CharsOf(n.children)[i + 1..]
        && Matches(AfterStar(pattern, nextChar, w[|wordSoFar|]), w[|wordSoFar| + 1..])
      ensures forall w :: w in mine + later <==>
        StoredBelow(n, wordSoFar, w) && |w| > |wordSoFar| && w[|wordSoFar|] in CharsOf(n.children)[i..]
        && Matches(AfterStar(pattern, nextChar, w[|wordSoFar|]), w[|wordSoFar| + 1..])
    {
      var c := n.children[i].nodeChar;
      DescendMatch(n, wordSoFar, i, AfterStar(pattern, nextChar, c), mine);
      assert CharsOf(n.children)[i..] == [c] + CharsOf(n.children)[i + 1..];
    }

    /** The `_` children loop at child `i`: the words matched with the child's
        character spliced in, joined with the later children's. */
    lemma UnderscoreStep(n: LexiconNode, wordSoFar: string, i: nat, rest: string,
                         mine: set<string>, later: set<string>)
      requires Valid() && n in Nodes && i < |n.children| && !IsWildcard(n.children[i].nodeChar)
      requires forall w :: w in mine <==> MatchedBelow(n, wordSoFar, [n.children[i].nodeChar] + rest, w)
      requires forall w :: w in later <==>
        StoredBelow(n, wordSoFar, w) && |w| > |wordSoFar| && w[|wordSoFar|] in CharsOf(n.children)[i + 1..]
        && Matches(rest, w[|wordSoFar| + 1..])
      ensures forall w :: w in mine + later <==>
        StoredBelow(n, wordSoFar, w) && |w| > |wordSoFar| && w[|wordSoFar|] in CharsOf(n.children)[i..]
        && Matches(rest, w[|wordSoFar| + 1..])
    {
      var c := n.children[i].nodeChar;
      SpliceMatch(n, wordSoFar, c, rest, mine);
      assert CharsOf(n.children)[i..] == [c] + CharsOf(n.children)[i + 1..];
    }

    /** The literal children loop at child `i`: the child's words when it
        carries the literal, nothing otherwise, joined with the later
        children's. */
    lemma LiteralStep(n: LexiconNode, wordSoFar: string, i: nat, pattern: string,
                      mine: set<string>, later: set<string>)
      requires Valid() && n in Nodes && i < |n.children| && n.children[i] in Nodes && pattern != []
      requires forall w :: w in mine <==>
        pattern[0] == n.children[i].nodeChar
        && MatchedBelow(n.children[i], wordSoFar + [n.children[i].nodeChar], pattern[1..], w)
      requires forall w :: w in later <==>
        StoredBelow(n, wordSoFar, w) && |w| > |wordSoFar| && w[|wordSoFar|] in CharsOf(n.children)[i + 1..]
        && w[|wordSoFar|] == pattern[0] && Matches(pattern[1..], w[|wordSoFar| + 1..])
      ensures forall w :: w in mine + later <==>
        StoredBelow(n, wordSoFar, w) && |w| > |wordSoFar| && w[|wordSoFar|] in CharsOf(n.children)[i..]
        && w[|wordSoFar|] == pattern[0] && Matches(pattern[1..], w[|wordSoFar| + 1..])
    {
      var c := n.children[i].nodeChar;
      if pattern[0] == c {
        DescendMatch(n, wordSoFar, i, pattern[1..], mine);
      }
      assert CharsOf(n.children)[i..] == [c] + CharsOf(n.children)[i + 1..];
    }

    /** Matching a pattern that starts with the stored character `c` at the
        same node is matching the rest one character further on. */
    lemma SpliceMatch(n: LexiconNode, wordSoFar: string, c: char, rest: string, mine: set<string>)
      requires Valid() && n in Nodes && !IsWildcard(c)
      requires forall w :: w in mine <==> MatchedBelow(n, wordSoFar, [c] + rest, w)
      ensures forall w :: w in mine <==> StoredBelow(n, wordSoFar, w) && |w| > |wordSoFar|
                                         && w[|wordSoFar|] == c && Matches(rest, w[|wordSoFar| + 1..])
    {
      var k := |wordSoFar|;
      assert ([c] + rest)[0] == c && ([c] + rest)[1..] == rest;
      forall w | StoredBelow(n, wordSoFar, w)
        ensures Matches([c] + rest, w[k..]) <==> |w| > k && w[k] == c && Matches(rest, w[k + 1..])
      {
        if |w| > k {
          assert w[k..][0] == w[k] && w[k..][1..] == w[k + 1..];
        }
      }
    }

    // ----- Insertion -----

    /** Walks `word` from the root, creating every missing node. Only a node
        created for the last letter is flagged; creating it counts the word and
        ends the call with true. A word whose whole path already exists, the
        empty word included, is refused with false and nothing changes, even
        when its last node is not flagged. */
    method AddWord(word: string) returns (added: bool)
      requires Valid()
      modifies this, Nodes
      ensures Valid()
      ensures added <==> word !in old(Paths())
      ensures added ==> numWords == old(numWords) + 1 && Words() == old(Words()) + {word}
                        && Paths() == old(Paths()) + Prefixes(word)
      ensures !added ==> numWords == old(numWords) && Nodes == old(Nodes) && PathOf == old(PathOf)
                         && Words() == old(Words())
      ensures |Words()| == |old(Words())| + (if added then 1 else 0)
      ensures old(numWords == |Words()|) ==> numWords == |Words()|
      ensures old(NoDeadEnds()) ==> NoDeadEnds()
      ensures old(Nodes) <= Nodes && fresh(Nodes - old(Nodes))
    {
      ghost var known := Paths();
      ghost var leads := AllLeadToWords(known, Words());
      assert NoDeadEnds() ==> leads by {
        NoDeadEndsMeans();
      }
      var finger := root;
      ghost var grown := false;
      for i := 0 to |word|
        invariant Valid()
        invariant finger in Nodes && PathOf[finger] == word[..i]
        invariant old(Nodes) <= Nodes && fresh(Nodes - old(Nodes))
        invariant numWords == old(numWords) && Words() == old(Words())
        invariant Paths() == known + Prefixes(word[..i])
        invariant !grown ==> Nodes == old(Nodes) && PathOf == old(PathOf)
        invariant grown ==> i < |word| && forall k :: i <= k <= |word| ==> word[..k] !in known
      {
        var charOfInt := word[i];
        var isFinalLetter := i == |word| - 1;
        TakeStep(word, i);
        PrefixesGrow(word, i);
        if !grown && word[..i + 1] !in known {
          LeavesKnown(known, word, i + 1);
        }
        var next, done, created := Advance(finger, charOfInt, isFinalLetter, word[..i + 1]);
        if created {
          GrowByNew(known, Prefixes(word[..i]), word[..i + 1]);
          if done {
            TakeAll(word, i + 1);
            CountOneMore(old(Words()), word);
            if leads {
              AllLeadToWordsGrow(known, old(Words()), word);
              NoDeadEndsFromLeads();
            }
            return true;
          }
          grown := true;
        } else {
          GrowByKnown(known, Prefixes(word[..i]), word[..i + 1]);
        }
        finger := next;
      }
      assert word[..|word|] == word;
      if leads {
        NoDeadEndsFromLeads();
      }
      return false;
    }

    /** One pass of addWord's loop at one letter: look the letter up below
        `finger`; when no child carries it, create and attach a node for it,
        flagged when it is the final letter, in which case the word is counted
        and addWord is `done`; otherwise look the letter up again and step down
        to that child. */
    method Advance(finger: LexiconNode, charOfInt: char, isFinalLetter: bool, ghost p: string)
      returns (next: LexiconNode, done: bool, created: bool)
      requires Valid() && finger in Nodes && p == PathOf[finger] + [charOfInt]
      modifies this, finger`children
      ensures Valid()
      ensures created <==> p !in old(Paths())
      ensures done <==> created && isFinalLetter
      ensures numWords == old(numWords) + (if done then 1 else 0)
      ensures next in Nodes && PathOf[next] == p
      ensures Paths() == old(Paths()) + {p}
      ensures created ==> Nodes == old(Nodes) + {next} && fresh(next) && next.children == []
                          && PathOf == old(PathOf)[next := p]
                          && (isFinalLetter ==> Words() == old(Words()) + {p})
                          && (!isFinalLetter ==> Words() == old(Words()))
      ensures !created ==> Nodes == old(Nodes) && PathOf == old(PathOf)
                           && finger.children == old(finger.children) && Words() == old(Words())
      ensures forall n :: n in old(Nodes) && n != finger ==> n.children == old(n.children)
    {
      var existing := finger.GetChild(charOfInt);
      created := existing == null;
      if existing == null {
        var newChild := AddNewChild(finger, charOfInt, isFinalLetter, p);
        if isFinalLetter {
          AdjustCount(1);
          return newChild, true, true;
        }
        CharsOfAt(finger.children);
      }
      ghost var ws := Words();
      next := finger.GetChild(charOfInt);
      assert Words() == ws;
      done := false;
    }

    /** `new LexiconNode(charOfInt, isFinalLetter, finger)` followed by
        `finger.addChild(newChild)`, with the bookkeeping of the trie's spelled
        strings. */
    method AddNewChild(finger: LexiconNode, charOfInt: char, isFinalLetter: bool, ghost p: string)
      returns (newChild: LexiconNode)
      requires Valid() && finger in Nodes
      requires p == PathOf[finger] + [charOfInt]
      requires charOfInt !in CharsOf(finger.children)
      modifies this, finger`children
      ensures Valid() && fresh(newChild)
      ensures newChild.nodeChar == charOfInt && newChild.parent == finger
      ensures newChild.isFullWordNode == isFinalLetter && newChild.children == []
      ensures Nodes == old(Nodes) + {newChild} && PathOf == old(PathOf)[newChild := p]
      ensures p !in old(Paths()) && Paths() == old(Paths()) + {p}
      ensures isFinalLetter ==> Words() == old(Words()) + {p}
      ensures !isFinalLetter ==> Words() == old(Words())
      ensures numWords == old(numWords)
      ensures newChild in finger.children
      ensures forall n :: n in old(Nodes) && n != finger ==> n.children == old(n.children)
    {
      ChildLookup(finger, charOfInt);
      newChild := new LexiconNode(charOfInt, isFinalLetter, finger);
      ghost var cs := finger.children;
      finger.AddChild(newChild);
      Nodes := Nodes + {newChild};
      PathOf := PathOf[newChild := p];
      if |p| > Height {
        Height := |p|;
      }
      AttachKeepsValid(finger, newChild, p, cs);
    }

    /** The shape invariant survives attaching a new leaf below `finger`. */
    twostate lemma AttachKeepsValid(new finger: LexiconNode, new newChild: LexiconNode, p: string, new cs: seq<LexiconNode>)
      requires old(Valid()) && finger in old(Nodes) && newChild !in old(Nodes)
      requires newChild.parent == finger && newChild.children == [] && newChild.nodeChar !in CharsOf(cs)
      requires p == old(PathOf[finger]) + [newChild.nodeChar] && p !in old(Paths())
      requires cs == old(finger.children) && finger.children == InsertAt(cs, newChild, InsertPos(CharsOf(cs), newChild.nodeChar))
      requires Nodes == old(Nodes) + {newChild} && PathOf == old(PathOf)[newChild := p]
      requires Height >= old(Height) && Height >= |p|
      requires forall n :: n in old(Nodes) ==> n.isFullWordNode == old(n.isFullWordNode)
      requires forall n :: n in old(Nodes) && n != finger ==> n.children == old(n.children)
      ensures Valid() && newChild in finger.children
      ensures Paths() == old(Paths()) + {p}
      ensures newChild.isFullWordNode ==> Words() == old(Words()) + {p}
      ensures !newChild.isFullWordNode ==> Words() == old(Words())
    {
      InsertAtFacts(cs, newChild, InsertPos(CharsOf(cs), newChild.nodeChar));
      InsertKeepsStrictlySorted(CharsOf(cs), newChild.nodeChar);
      assert Rooted();
      assert SiblingsSorted() by {
        forall n | n in Nodes
          ensures StrictlySorted(CharsOf(n.children))
        {
          if n != finger && n != newChild {
            assert n.children == old(n.children);
          }
        }
      }
      assert ChildrenLinked() by {
        forall n, c | n in Nodes && c in n.children
          ensures c in Nodes && c in PathOf && n in PathOf && c.parent == n && PathOf[c] == PathOf[n] + [c.nodeChar]
        {
          if n == finger {
            assert c in cs || c == newChild;
          } else {
            assert n != newChild;
            assert n.children == old(n.children);
          }
        }
      }
      assert ParentsLinked() by {
        forall n | n in Nodes && n != root
          ensures n.parent != null && n.parent in Nodes && n in n.parent.children
        {
          if n != newChild {
            assert n in old(n.parent.children);
          }
        }
      }
      forall q | q in Paths()
        ensures q in old(Paths()) || q == p
      {
        var m :| m in Nodes && m in PathOf && PathOf[m] == q;
        if m != newChild {
          assert m in old(Nodes) && old(PathOf[m]) == q;
        }
      }
      forall q | q in old(Paths())
        ensures q in Paths()
      {
        var m :| m in old(Nodes) && m in old(PathOf) && old(PathOf[m]) == q;
        assert m != newChild && PathOf[m] == q;
      }
      assert p in Paths() by {
        assert PathOf[newChild] == p;
      }
      forall w | w in Words()
        ensures w in old(Words()) || (newChild.isFullWordNode && w == p)
      {
        var m :| m in Nodes && m in PathOf && m.isFullWordNode && PathOf[m] == w;
        if m != newChild {
          assert m in old(Nodes) && old(m.isFullWordNode) && old(PathOf[m]) == w;
        }
      }
      forall w | w in old(Words())
        ensures w in Words()
      {
        var m :| m in old(Nodes) && m in old(PathOf) && old(m.isFullWordNode) && old(PathOf[m]) == w;
        assert m != newChild && PathOf[m] == w;
      }
      assert newChild.isFullWordNode ==> p in Words() by {
        assert PathOf[newChild] == p;
      }
    }

    // ----- Loading a word list -----

    /** The loop of addWordsFromFile over the tokens it reads, as written: the
        count goes up for every token, whether or not addWord stored it. */
    method AddWordsAsWritten(tokens: seq<string>) returns (wordsAdded: int)
      requires Valid()
      modifies this, Nodes
      ensures Valid() && wordsAdded == |tokens|
      ensures Paths() == old(Paths()) + TokenPrefixes(tokens)
      ensures Words() == old(Words()) + NewPathTokens(old(Paths()), tokens)
      ensures numWords - old(numWords) == |Words()| - |old(Words())|
      ensures old(NoDeadEnds()) ==> NoDeadEnds()
    {
      ghost var known, stored := Paths(), Words();
      wordsAdded := 0;
      for i := 0 to |tokens|
        invariant Valid() && wordsAdded == i
        invariant old(Nodes) <= Nodes && fresh(Nodes - old(Nodes))
        invariant LoadedAsWritten(known, stored, old(numWords), tokens, i)
        invariant old(NoDeadEnds()) ==> NoDeadEnds()
      {
        AddToken(known, stored, old(numWords), tokens, i);
        wordsAdded := wordsAdded + 1;
      }
      assert tokens[..|tokens|] == tokens;
    }

    /** The state after the as-written loop has added the first `i` tokens to
        a trie that spelled `known`, stored `stored` and counted `count`: the
        prefixes of those tokens are spelled, the tokens whose path was new at
        their turn are stored, and the counter moved with the stored words. */
    ghost predicate LoadedAsWritten(known: set<string>, stored: set<string>, count: int,
                                    tokens: seq<string>, i: nat)
      requires i <= |tokens|
      reads this, Nodes
    {
      && Paths() == known + TokenPrefixes(tokens[..i])
      && Words() == stored + NewPathTokens(known, tokens[..i])
      && numWords - count == |Words()| - |stored|
    }

    /** One pass of addWordsFromFile's loop as written: the token at `i` is
        added with addWord, which stores it exactly when its path is new. */
    method AddToken(ghost known: set<string>, ghost stored: set<string>, ghost count: int,
                    tokens: seq<string>, i: nat)
      requires Valid() && i < |tokens| && LoadedAsWritten(known, stored, count, tokens, i)
      modifies this, Nodes
      ensures Valid() && LoadedAsWritten(known, stored, count, tokens, i + 1)
      ensures numWords - old(numWords) == |Words()| - |old(Words())|
      ensures old(NoDeadEnds()) ==> NoDeadEnds()
      ensures old(Nodes) <= Nodes && fresh(Nodes - old(Nodes))
    {
      var t := tokens[i];
      TokenPrefixesStep(tokens, i);
      NewPathTokensStep(known, tokens, i);
      var added := AddWord(t);
      if added {
        GrowByAll(known, TokenPrefixes(tokens[..i]), Prefixes(t));
        GrowByNew(stored, NewPathTokens(known, tokens[..i]), t);
      } else {
        forall p | p in Prefixes(t)
          ensures p in Paths()
        {
          PrefixClosed(p, t);
        }
        GrowByKnownAll(known, TokenPrefixes(tokens[..i]), Prefixes(t));
      }
    }

    /** The same loop over the documented addWord, counting only the tokens it
        stored, which is the number of new words the method is documented to
        return. */
    method AddWordsFromTokens(tokens: seq<string>) returns (wordsAdded: int)
      requires Valid()
      modifies this, Nodes
      ensures Valid() && wordsAdded == |Words()| - |old(Words())|
      ensures Words() == old(Words()) + NonEmptyTokens(tokens)
      ensures old(numWords == |Words()|) ==> numWords == |Words()|
      ensures old(NoDeadEnds()) ==> NoDeadEnds()
    {
      ghost var start := Words();
      wordsAdded := 0;
      for i := 0 to |tokens|
        invariant Valid() && wordsAdded == |Words()| - |start|
        invariant old(Nodes) <= Nodes && fresh(Nodes - old(Nodes))
        invariant Words() == start + NonEmptyTokens(tokens[..i])
        invariant numWords - old(numWords) == wordsAdded
        invariant old(NoDeadEnds()) ==> NoDeadEnds()
      {
        var stored := LoadToken(start, tokens, i);
        if stored {
          wordsAdded := wordsAdded + 1;
        }
      }
      assert tokens[..|tokens|] == tokens;
    }

    /** One pass of the documented loading loop: the token at `i` is added
        with the documented addWord, and `stored` says whether it was new. */
    method LoadToken(ghost start: set<string>, tokens: seq<string>, i: nat) returns (stored: bool)
      requires Valid() && i < |tokens| && Words() == start + NonEmptyTokens(tokens[..i])
      modifies this, Nodes
      ensures Valid() && Words() == start + NonEmptyTokens(tokens[..i + 1])
      ensures |Words()| == |old(Words())| + (if stored then 1 else 0)
      ensures numWords == old(numWords) + (if stored then 1 else 0)
      ensures old(NoDeadEnds()) ==> NoDeadEnds()
      ensures old(Nodes) <= Nodes && fresh(Nodes - old(Nodes))
    {
      stored := AddWordCorrected(tokens[i]);
      NonEmptyTokensStep(tokens, i);
      if tokens[i] != [] {
        GrowByNew(start, NonEmptyTokens(tokens[..i]), tokens[i]);
      }
    }

    // ----- Removal -----

    /** No other node spells what `n` spells. */
    lemma Unique(n: LexiconNode)
      requires Valid() && n in Nodes
      ensures forall m | m in Nodes && PathOf[m] == PathOf[n] :: m == n
    {
      forall m | m in Nodes && PathOf[m] == PathOf[n]
        ensures m == n
      {
        SamePath(m, n);
      }
    }

    /** A childless node ends every path through it. */
    lemma LeafEnds(n: LexiconNode)
      requires Valid() && n in Nodes && n.children == []
      ensures forall q | q in Paths() && IsPrefix(PathOf[n], q) :: q == PathOf[n]
    {
      forall q | q in Paths() && IsPrefix(PathOf[n], q)
        ensures q == PathOf[n]
      {
        var k := |PathOf[n]|;
        if |q| > k {
          assert q[..k + 1] == PathOf[n] + [q[k]];
          PrefixClosed(q[..k + 1], q);
          ChildLookup(n, q[k]);
        }
      }
    }

    /** Setting or clearing the flag of a node other than a flagged root keeps
        the shape, and puts the string of `n` into the stored words or takes it
        out of them. */
    twostate lemma FlagKeepsValid(new n: LexiconNode)
      requires old(Valid()) && n in old(Nodes) && (n == root ==> !n.isFullWordNode)
      requires forall m | m in old(Nodes) && old(PathOf[m]) == old(PathOf[n]) :: m == n
      requires Nodes == old(Nodes) && PathOf == old(PathOf) && Height == old(Height)
      requires forall m | m in Nodes :: m.children == old(m.children)
      requires forall m | m in Nodes && m != n :: m.isFullWordNode == old(m.isFullWordNode)
      ensures Valid() && Paths() == old(Paths())
      ensures n.isFullWordNode ==> Words() == old(Words()) + {PathOf[n]}
      ensures !n.isFullWordNode ==> Words() == old(Words()) - {PathOf[n]}
    {
      assert Rooted();
      assert SiblingsSorted() by {
        forall m | m in Nodes
          ensures StrictlySorted(CharsOf(m.children))
        {
          assert m.children == old(m.children);
        }
      }
      assert ChildrenLinked() by {
        forall m, c | m in Nodes && c in m.children
          ensures c in Nodes && c in PathOf && m in PathOf && c.parent == m && PathOf[c] == PathOf[m] + [c.nodeChar]
        {
          assert m.children == old(m.children);
        }
      }
      assert ParentsLinked() by {
        forall m | m in Nodes && m != root
          ensures m.parent != null && m.parent in Nodes && m in m.parent.children
        {
          assert m in old(m.parent.children);
        }
      }
      forall w | w in Words()
        ensures w in old(Words()) || (n.isFullWordNode && w == PathOf[n])
        ensures w != PathOf[n] || n.isFullWordNode
      {
        var m :| m in Nodes && m in PathOf && m.isFullWordNode && PathOf[m] == w;
        if m != n {
          assert old(m.isFullWordNode);
        }
      }
      forall w | w in old(Words()) && w != PathOf[n]
        ensures w in Words()
      {
        var m :| m in old(Nodes) && m in old(PathOf) && old(m.isFullWordNode) && old(PathOf[m]) == w;
        assert m != n && PathOf[m] == w;
      }
      if n.isFullWordNode {
        assert PathOf[n] in Words();
      }
    }

    /** `n.setIsFullWordNode(false)`, with the bookkeeping of the trie's
        stored words. */
    method Unflag(n: LexiconNode)
      requires Valid() && n in Nodes
      modifies n`isFullWordNode
      ensures Valid() && !n.isFullWordNode
      ensures Paths() == old(Paths()) && PathOf == old(PathOf)
      ensures Words() == old(Words()) - {PathOf[n]}
    {
      Unique(n);
      n.SetIsFullWordNode(false);
      FlagKeepsValid(n);
    }

    /** `n.setIsFullWordNode(true)` on a node other than the root, with the
        bookkeeping of the trie's stored words. */
    method Flag(n: LexiconNode)
      requires Valid() && n in Nodes && n != root && !n.isFullWordNode
      modifies n`isFullWordNode
      ensures Valid() && n.isFullWordNode
      ensures Paths() == old(Paths()) && PathOf == old(PathOf)
      ensures Words() == old(Words()) + {PathOf[n]}
      ensures |Words()| == |old(Words())| + 1
    {
      OwnWord(n);
      CountOneMore(Words(), PathOf[n]);
      Unique(n);
      n.SetIsFullWordNode(true);
      FlagKeepsValid(n);
    }

    /** `parent.removeChild(leaf)` on a childless node, with the bookkeeping of
        the trie's spelled strings. */
    method DetachLeaf(parent: LexiconNode, leaf: LexiconNode)
      requires Valid() && leaf in Nodes && leaf != root && leaf.parent == parent && leaf.children == []
      modifies this, parent`children
      ensures Valid() && numWords == old(numWords)
      ensures Nodes == old(Nodes) - {leaf} && PathOf == old(PathOf) - {leaf}
      ensures Paths() == old(Paths()) - {old(PathOf[leaf])}
      ensures Words() == old(Words()) - {old(PathOf[leaf])}
    {
      Unique(leaf);
      ghost var cs := parent.children;
      parent.RemoveChild(leaf);
      Nodes := Nodes - {leaf};
      PathOf := PathOf - {leaf};
      DetachKeepsValid(parent, leaf, cs);
    }

    /** The shape invariant survives taking a childless node out of its
        parent's children. */
    twostate lemma DetachKeepsValid(new parent: LexiconNode, new leaf: LexiconNode, new cs: seq<LexiconNode>)
      requires old(Valid()) && leaf in old(Nodes) && leaf != root && leaf.parent == parent && leaf.children == []
      requires forall m | m in old(Nodes) && old(PathOf[m]) == old(PathOf[leaf]) :: m == leaf
      requires cs == old(parent.children) && parent.children == RemoveFirst(cs, leaf)
      requires Nodes == old(Nodes) - {leaf} && PathOf == old(PathOf) - {leaf} && Height == old(Height)
      requires forall n | n in old(Nodes) :: n.isFullWordNode == old(n.isFullWordNode)
      requires forall n | n in old(Nodes) && n != parent :: n.children == old(n.children)
      ensures Valid()
      ensures Paths() == old(Paths()) - {old(PathOf[leaf])}
      ensures Words() == old(Words()) - {old(PathOf[leaf])}
    {
      RemoveKeepsStrictlySorted(cs, leaf);
      assert Rooted();
      assert SiblingsSorted() by {
        forall n | n in Nodes
          ensures StrictlySorted(CharsOf(n.children))
        {
          if n != parent {
            assert n.children == old(n.children);
          }
        }
      }
      assert ChildrenLinked() by {
        forall n, c | n in Nodes && c in n.children
          ensures c in Nodes && c in PathOf && n in PathOf && c.parent == n && PathOf[c] == PathOf[n] + [c.nodeChar]
        {
          if n == parent {
            assert c in cs && c != leaf;
          } else {
            assert n.children == old(n.children);
          }
        }
      }
      assert ParentsLinked() by {
        forall n | n in Nodes && n != root
          ensures n.parent != null && n.parent in Nodes && n in n.parent.children
        {
          assert n in old(n.parent.children);
          if n.parent == parent {
            assert n in cs && n != leaf;
          }
        }
      }
      ghost var p := old(PathOf[leaf]);
      forall q | q in Paths()
        ensures q in old(Paths()) && q != p
      {
        var m :| m in Nodes && m in PathOf && PathOf[m] == q;
        assert m in old(Nodes) && old(PathOf[m]) == q;
      }
      forall q | q in old(Paths()) && q != p
        ensures q in Paths()
      {
        var m :| m in old(Nodes) && m in old(PathOf) && old(PathOf[m]) == q;
        assert m != leaf && PathOf[m] == q;
      }
      forall w | w in Words()
        ensures w in old(Words()) && w != p
      {
        var m :| m in Nodes && m in PathOf && m.isFullWordNode && PathOf[m] == w;
        assert m in old(Nodes) && old(m.isFullWordNode) && old(PathOf[m]) == w;
      }
      forall w | w in old(Words()) && w != p
        ensures w in Words()
      {
        var m :| m in old(Nodes) && m in old(PathOf) && old(m.isFullWordNode) && old(PathOf[m]) == w;
        assert m != leaf && PathOf[m] == w;
      }
    }

    /** Walks up from `endNode`, detaching every node left without children,
        whether or not it ends a word, and stops at the first node that still
        has children. A root left without children has no parent to detach it
        from: Java dereferences the null parent and throws. `last` is the node
        the walk stops at; every string on the path of `endNode` longer than
        its string is gone. */
    method CleanUp(endNode: LexiconNode) returns (threw: bool, ghost last: LexiconNode)
      requires Valid() && endNode in Nodes
      modifies this, Nodes
      decreases |PathOf[endNode]|
      ensures Valid() && numWords == old(numWords)
      ensures last in Nodes && IsPrefix(PathOf[last], old(PathOf[endNode]))
      ensures threw <==> last.children == []
      ensures threw ==> last == root && Paths() == {[]} && Words() == {}
      ensures Paths() == Cut(old(Paths()), old(PathOf[endNode]), |PathOf[last]|)
      ensures Words() == Cut(old(Words()), old(PathOf[endNode]), |PathOf[last]|)
      ensures ChainOnly(old(Paths()), old(PathOf[endNode]), |PathOf[last]|)
    {
      ghost var pe := PathOf[endNode];
      if endNode.HasChildren() {
        CutNothing(Paths(), pe);
        CutNothing(Words(), pe);
        return false, endNode;
      }
      var parent := endNode.parent;
      if parent == null {
        assert endNode == root;
        RootAlone();
        return true, endNode;
      }
      ParentPath(endNode);
      LeafEnds(endNode);
      ghost var before, wordsBefore := Paths(), Words();
      DetachLeaf(parent, endNode);
      assert PathOf[parent] == pe[..|pe| - 1];
      threw, last := CleanUp(parent);
      CutStep(before, pe, |PathOf[last]|);
      CutStep(wordsBefore, pe, |PathOf[last]|);
      ChainStep(before, pe, |PathOf[last]|);
    }

    /** Follows `word` down the trie; when its whole path exists, clears the
        flag of its last node, cleans up from there and uncounts a word, and
        answers true even when the path did not end a stored word. */
    method RemoveWord(word: string) returns (c: Completion, ghost last: LexiconNode)
      requires Valid()
      modifies this, Nodes
      ensures Valid() && last in Nodes && IsPrefix(PathOf[last], word)
      ensures c == Normal(false) <==> word !in old(Paths())
      ensures c == Normal(false) ==> Nodes == old(Nodes) && PathOf == old(PathOf) && Words() == old(Words())
                                     && numWords == old(numWords)
      ensures c == Normal(true) ==> numWords == old(numWords) - 1 && last.children != []
      ensures c == NullPointerException ==> numWords == old(numWords) && last == root
                                            && Paths() == {[]} && Words() == {}
      ensures c != Normal(false) ==>
                && Paths() == Cut(old(Paths()), word, |PathOf[last]|)
                && Words() == Cut(old(Words()) - {word}, word, |PathOf[last]|)
                && ChainOnly(old(Paths()), word, |PathOf[last]|)
      ensures word !in Words()
      ensures old(NoDeadEnds()) ==> NoDeadEnds()
    {
      var finalNode := FinalNode(word);
      if finalNode == null {
        assert word !in Words() by {
          WordsArePaths();
        }
        return Normal(false), root;
      }
      var threw;
      threw, last := Discard(finalNode, word);
      if threw {
        return NullPointerException, last;
      }
      AdjustCount(-1);
      return Normal(true), last;
    }

    /** `finalNode.setIsFullWordNode(false)` followed by `cleanUp(finalNode)`:
        the word of `n` and the chain the clean-up detaches are gone, and a
        trie without dead ends keeps none. */
    method Discard(n: LexiconNode, ghost word: string) returns (threw: bool, ghost last: LexiconNode)
      requires Valid() && n in Nodes && PathOf[n] == word
      modifies this, Nodes
      ensures Valid() && numWords == old(numWords)
      ensures last in Nodes && IsPrefix(PathOf[last], word)
      ensures threw <==> last.children == []
      ensures threw ==> last == root && Paths() == {[]} && Words() == {}
      ensures Paths() == Cut(old(Paths()), word, |PathOf[last]|)
      ensures Words() == Cut(old(Words()) - {word}, word, |PathOf[last]|)
      ensures ChainOnly(old(Paths()), word, |PathOf[last]|)
      ensures old(NoDeadEnds()) ==> NoDeadEnds()
    {
      ghost var leads := AllLeadToWords(Paths(), Words());
      assert NoDeadEnds() ==> leads by {
        NoDeadEndsMeans();
      }
      Unflag(n);
      threw, last := CleanUp(n);
      if threw {
        NoDeadEndsFromLeads();
      } else if leads {
        StopKeepsLeads(last, word, old(Paths()), old(Words()));
      }
    }

    /** A node with children has a path one letter longer than its own. */
    lemma ChildPath(n: LexiconNode) returns (q: string)
      requires Valid() && n in Nodes && n.children != []
      ensures q in Paths() && |q| == |PathOf[n]| + 1 && q[..|PathOf[n]|] == PathOf[n]
    {
      var c := n.children[0];
      assert c in n.children;
      q := PathOf[c];
      assert q[..|PathOf[n]|] == PathOf[n];
    }

    /** A clean-up along `word` that stops at a node with children keeps
        every remaining path leading to a remaining word. */
    lemma StopKeepsLeads(last: LexiconNode, word: string, known: set<string>, stored: set<string>)
      requires Valid() && last in Nodes && last.children != [] && IsPrefix(PathOf[last], word)
      requires AllLeadToWords(known, stored)
      requires Paths() == Cut(known, word, |PathOf[last]|)
      requires Words() == Cut(stored - {word}, word, |PathOf[last]|)
      ensures NoDeadEnds()
    {
      var q := ChildPath(last);
      AllLeadToWordsCut(known, stored, word, |PathOf[last]|, q);
      NoDeadEndsFromLeads();
    }

    /** `numWords++` and `numWords--`: the counter moves by `delta` and the
        nodes, their shape and the strings they spell stay as they are. */
    method AdjustCount(delta: int)
      requires Valid()
      modifies this`numWords
      ensures numWords == old(numWords) + delta
      ensures Valid() && Nodes == old(Nodes) && PathOf == old(PathOf)
      ensures Paths() == old(Paths()) && Words() == old(Words())
    {
      numWords := numWords + delta;
    }

    /** Java's numWords(). */
    function NumWords(): int
      reads this
    {
      numWords
    }

    // ----- Insertion and removal as documented -----

    /** Every node other than the root leads to a stored word: a node without
        children ends one. */
    ghost predicate NoDeadEnds()
      reads this`Nodes, this`PathOf, this`Height, Nodes
    {
      forall n | n in Nodes && n != root && n.children == [] :: n.isFullWordNode
    }

    /** Every node other than the root and `m` leads to a stored word. */
    ghost predicate DeadEndsOnlyAt(m: LexiconNode)
      reads this`Nodes, this`PathOf, this`Height, Nodes
    {
      forall n | n in Nodes && n != root && n != m && n.children == [] :: n.isFullWordNode
    }

    /** In a trie without dead ends, the string of every node other than the
        root starts a stored word. */
    lemma {:induction false} ReachesWord(n: LexiconNode)
      requires Valid() && NoDeadEnds() && n in Nodes && n != root
      ensures LeadsToWord(PathOf[n], Words())
      decreases Height - |PathOf[n]|
    {
      if n.isFullWordNode {
        assert PathOf[n] in Words() && IsPrefix(PathOf[n], PathOf[n]);
      } else {
        var c := n.children[0];
        assert c in n.children;
        assert c.parent == n && c != root;
        ReachesWord(c);
        var w :| w in Words() && IsPrefix(PathOf[c], w);
        assert w[..|PathOf[n]|] == PathOf[c][..|PathOf[n]|] == PathOf[n];
      }
    }

    /** A trie has no dead ends exactly when every non-empty string it spells
        starts a stored word. */
    lemma NoDeadEndsMeans()
      requires Valid()
      ensures NoDeadEnds() <==> AllLeadToWords(Paths(), Words())
    {
      if NoDeadEnds() {
        forall q | q in Paths() && q != []
          ensures LeadsToWord(q, Words())
        {
          var m := NodeOf(q);
          assert m != root;
          ReachesWord(m);
        }
      }
      if AllLeadToWords(Paths(), Words()) {
        forall n | n in Nodes && n != root && n.children == []
          ensures n.isFullWordNode
        {
          LeafIsWord(n);
        }
      }
    }

    /** In a trie without dead ends, which addWord and removeWord keep, a
        non-empty string is a known prefix exactly when some stored word
        begins with it: the answer containsPrefix is documented to give. */
    lemma PrefixMeansWordBegins(p: string)
      requires Valid() && NoDeadEnds()
      ensures p in Paths() <==> p == [] || LeadsToWord(p, Words())
    {
      NoDeadEndsMeans();
      WordsArePaths();
      if p != [] && LeadsToWord(p, Words()) {
        var w :| w in Words() && IsPrefix(p, w);
        PrefixClosed(p, w);
      }
    }

    /** The direction of NoDeadEndsMeans that insertion needs. */
    lemma NoDeadEndsFromLeads()
      requires Valid() && AllLeadToWords(Paths(), Words())
      ensures NoDeadEnds()
    {
      NoDeadEndsMeans();
    }

    /** When every non-empty spelled string starts a stored word, a childless
        node other than the root ends one: no stored word goes on below it. */
    lemma LeafIsWord(n: LexiconNode)
      requires Valid() && AllLeadToWords(Paths(), Words())
      requires n in Nodes && n != root && n.children == []
      ensures n.isFullWordNode
    {
      var q := PathOf[n];
      if q == [] {
        SamePath(n, root);
      }
      assert q in Paths();
      var w :| w in Words() && IsPrefix(q, w);
      if |w| > |q| {
        WordsArePaths();
        PrefixStep(q, w);
        PrefixClosed(q + [w[|q|]], w);
        ChildLookup(n, w[|q|]);
      } else {
        assert w == q;
        OwnWord(n);
      }
    }

    /** addWord as its documentation states it: after walking and creating the
        path of a non-empty word, its last node is flagged and the word counted
        unless it was stored already. */
    method AddWordCorrected(word: string) returns (added: bool)
      requires Valid()
      modifies this, Nodes
      ensures Valid()
      ensures added <==> word != [] && word !in old(Words())
      ensures Words() == old(Words()) + (if word != [] then {word} else {})
      ensures Paths() == old(Paths()) + (if word != [] then Prefixes(word) else {})
      ensures numWords == old(numWords) + (if added then 1 else 0)
      ensures |Words()| == |old(Words())| + (if added then 1 else 0)
      ensures old(numWords == |Words()|) ==> numWords == |Words()|
      ensures old(NoDeadEnds()) ==> NoDeadEnds()
      ensures old(Nodes) <= Nodes && fresh(Nodes - old(Nodes))
    {
      NoDeadEndsMeans();
      if word == [] {
        return false;
      }
      added := AddWord(word);
      if !added {
        forall p | p in Prefixes(word)
          ensures p in Paths()
        {
          PrefixClosed(p, word);
        }
        added := FlagPath(word);
      }
      if old(NoDeadEnds()) {
        AllLeadToWordsGrow(old(Paths()), old(Words()), word);
        NoDeadEndsMeans();
      }
    }

    /** The step the documented addWord adds once the whole path of `word`
        exists: flag its last node and count the word, unless it is stored. */
    method FlagPath(word: string) returns (flagged: bool)
      requires Valid() && word in Paths() && word != []
      modifies Nodes, this`numWords
      ensures Valid() && Nodes == old(Nodes) && PathOf == old(PathOf)
      ensures flagged <==> word !in old(Words())
      ensures Words() == old(Words()) + {word}
      ensures numWords == old(numWords) + (if flagged then 1 else 0)
      ensures |Words()| == |old(Words())| + (if flagged then 1 else 0)
    {
      var finalNode := FinalNode(word);
      OwnWord(finalNode);
      if finalNode.isFullWordNode {
        return false;
      }
      Flag(finalNode);
      AdjustCount(1);
      return true;
    }

    /** cleanUp as its documentation states it: walks up from `endNode`,
        detaching nodes that neither have children nor end a word, and stops at
        the root. The stored words stay as they are, and when `endNode` was the
        only node leading to no word, afterwards none does. */
    method CleanUpCorrected(endNode: LexiconNode)
      requires Valid() && endNode in Nodes
      modifies this, Nodes
      decreases |PathOf[endNode]|
      ensures Valid() && numWords == old(numWords)
      ensures Words() == old(Words())
      ensures Paths() <= old(Paths())
      ensures old(DeadEndsOnlyAt(endNode)) ==> NoDeadEnds()
    {
      if endNode.HasChildren() || endNode.isFullWordNode {
        return;
      }
      var parent := endNode.parent;
      if parent == null {
        return;
      }
      ParentPath(endNode);
      OwnWord(endNode);
      DetachLeaf(parent, endNode);
      CleanUpCorrected(parent);
    }

    /** removeWord as its documentation states it: a word that is not stored
        leaves the lexicon unchanged and is answered with false; a stored word
        is unflagged, the nodes leading to no word are detached, and the word
        is uncounted. */
    method RemoveWordCorrected(word: string) returns (removed: bool)
      requires Valid()
      modifies this, Nodes
      ensures Valid()
      ensures removed <==> word in old(Words())
      ensures Words() == old(Words()) - {word}
      ensures Paths() <= old(Paths())
      ensures !removed ==> Nodes == old(Nodes) && PathOf == old(PathOf)
      ensures numWords == old(numWords) - (if removed then 1 else 0)
      ensures old(numWords == |Words()|) ==> numWords == |Words()|
      ensures old(NoDeadEnds()) ==> NoDeadEnds()
    {
      var finalNode := FinalNode(word);
      if finalNode == null {
        WordsArePaths();
        return false;
      }
      OwnWord(finalNode);
      if !finalNode.isFullWordNode {
        return false;
      }
      Unstore(finalNode);
      return true;
    }

    /** The steps the documented removeWord takes at the node of a stored
        word: clear its flag, clean up from it and uncount the word. */
    method Unstore(n: LexiconNode)
      requires Valid() && n in Nodes && n.isFullWordNode
      modifies this, Nodes
      ensures Valid()
      ensures Words() == old(Words()) - {old(PathOf[n])}
      ensures |Words()| == |old(Words())| - 1
      ensures Paths() <= old(Paths())
      ensures numWords == old(numWords) - 1
      ensures old(NoDeadEnds()) ==> NoDeadEnds()
    {
      OwnWord(n);
      ghost var wasFree := NoDeadEnds();
      Unflag(n);
      if wasFree {
        forall m | m in Nodes && m != root && m != n && m.children == []
          ensures m.isFullWordNode
        {
          assert old(m.isFullWordNode);
        }
      }
      CleanUpCorrected(n);
      AdjustCount(-1);
    }
  }

  /** The tokens that the documented addWord stores, gathered in reading
      order. */
  function NonEmptyTokens(tokens: seq<string>): set<string>
  {
    if tokens == [] then {}
    else
      var last := tokens[|tokens| - 1];
      NonEmptyTokens(tokens[..|tokens| - 1]) + (if last != [] then {last} else {})
  }

  /** The stored tokens are exactly the non-empty ones. */
  lemma {:induction false} NonEmptyTokensMembers(tokens: seq<string>)
    ensures forall w :: w in NonEmptyTokens(tokens) <==> w in tokens && w != []
  {
    if tokens != [] {
      var init := tokens[..|tokens| - 1];
      NonEmptyTokensMembers(init);
      assert tokens == init + [tokens[|tokens| - 1]];
    }
  }

  lemma NonEmptyTokensStep(tokens: seq<string>, i: nat)
    requires i < |tokens|
    ensures NonEmptyTokens(tokens[..i + 1]) == NonEmptyTokens(tokens[..i]) + (if tokens[i] != [] then {tokens[i]} else {})
  {
    assert tokens[..i + 1][..i] == tokens[..i];
  }

  /** The prefixes of all the tokens: the paths that loading them leaves. */
  function TokenPrefixes(tokens: seq<string>): set<string>
  {
    if tokens == [] then {}
    else TokenPrefixes(tokens[..|tokens| - 1]) + Prefixes(tokens[|tokens| - 1])
  }

  /** The tokens that addWord as written stores when they are loaded in order
      into a trie whose paths are `known`: those whose path neither is known
      nor runs along an earlier token. */
  function NewPathTokens(known: set<string>, tokens: seq<string>): set<string>
  {
    if tokens == [] then {}
    else
      var init, last := tokens[..|tokens| - 1], tokens[|tokens| - 1];
      NewPathTokens(known, init) + (if last !in known + TokenPrefixes(init) then {last} else {})
  }

  lemma TokenPrefixesStep(tokens: seq<string>, i: nat)
    requires i < |tokens|
    ensures TokenPrefixes(tokens[..i + 1]) == TokenPrefixes(tokens[..i]) + Prefixes(tokens[i])
  {
    assert tokens[..i + 1][..i] == tokens[..i];
  }

  lemma NewPathTokensStep(known: set<string>, tokens: seq<string>, i: nat)
    requires i < |tokens|
    ensures NewPathTokens(known, tokens[..i + 1])
            == NewPathTokens(known, tokens[..i])
               + (if tokens[i] !in known + TokenPrefixes(tokens[..i]) then {tokens[i]} else {})
  {
    assert tokens[..i + 1][..i] == tokens[..i];
  }

  /** A path is created by the loading exactly when it is a prefix of some
      token. */
  lemma {:induction false} TokenPrefixesMembers(tokens: seq<string>)
    ensures forall q :: q in TokenPrefixes(tokens) <==> exists j :: 0 <= j < |tokens| && IsPrefix(q, tokens[j])
  {
    if tokens != [] {
      var init := tokens[..|tokens| - 1];
      TokenPrefixesMembers(init);
      forall q
        ensures q in TokenPrefixes(tokens) <==> exists j :: 0 <= j < |tokens| && IsPrefix(q, tokens[j])
      {
        if exists j :: 0 <= j < |init| && IsPrefix(q, init[j]) {
          var j :| 0 <= j < |init| && IsPrefix(q, init[j]);
          assert tokens[j] == init[j];
        }
        if exists j :: 0 <= j < |tokens| && IsPrefix(q, tokens[j]) {
          var j :| 0 <= j < |tokens| && IsPrefix(q, tokens[j]);
          if j < |init| {
            assert init[j] == tokens[j];
          }
        }
      }
    }
  }

  /** At its turn, the token at `i` was no known path and no prefix of an
      earlier token. */
  predicate FirstFresh(known: set<string>, tokens: seq<string>, i: int) {
    0 <= i < |tokens| && tokens[i] !in known && forall j :: 0 <= j < i ==> !IsPrefix(tokens[i], tokens[j])
  }

  lemma FirstFreshInit(known: set<string>, tokens: seq<string>, n: nat, i: int)
    requires 0 <= i < n <= |tokens|
    ensures FirstFresh(known, tokens[..n], i) <==> FirstFresh(known, tokens, i)
  {
    assert forall j :: 0 <= j <= i ==> tokens[..n][j] == tokens[j];
  }

  /** A token is stored by the loading as written exactly when, at its turn,
      it was no known path and no prefix of an earlier token: a token that is
      a prefix of a stored word or of an earlier token is refused. */
  lemma {:induction false} NewPathTokensMembers(known: set<string>, tokens: seq<string>)
    ensures forall w :: w in NewPathTokens(known, tokens) <==>
              exists i :: 0 <= i < |tokens| && tokens[i] == w && FirstFresh(known, tokens, i)
  {
    if tokens != [] {
      var n := |tokens| - 1;
      var init := tokens[..n];
      NewPathTokensMembers(known, init);
      TokenPrefixesMembers(init);
      assert tokens[n] !in known + TokenPrefixes(init) <==> FirstFresh(known, tokens, n) by {
        assert forall j :: 0 <= j < n ==> init[j] == tokens[j];
      }
      forall w
        ensures w in NewPathTokens(known, tokens) <==>
                  exists i :: 0 <= i < |tokens| && tokens[i] == w && FirstFresh(known, tokens, i)
      {
        if w in NewPathTokens(known, init) {
          var i :| 0 <= i < |init| && init[i] == w && FirstFresh(known, init, i);
          FirstFreshInit(known, tokens, n, i);
        }
        if exists i :: 0 <= i < |tokens| && tokens[i] == w && FirstFresh(known, tokens, i) {
          var i :| 0 <= i < |tokens| && tokens[i] == w && FirstFresh(known, tokens, i);
          if i < n {
            FirstFreshInit(known, tokens, n, i);
            assert init[i] == w;
          }
        }
      }
    }
  }

  /** In a lexicon built by the constructor and addWord calls, numWords()
      answers the number of stored words. */
  method NumWordsOfBuiltLexicon(words: seq<string>) returns (t: LexiconTrie, n: int)
    ensures t.Valid() && n == |t.Words()|
  {
    t := new LexiconTrie();
    for i := 0 to |words|
      invariant fresh(t) && fresh(t.Nodes)
      invariant t.Valid() && t.numWords == |t.Words()|
    {
      var _ := t.AddWord(words[i]);
    }
    n := t.NumWords();
  }

  /** addWordsFromFile's loop as written, on the tokens `a`, `a` read into a
      new lexicon: the answer is 2, but one word is new. */
  method RepeatedTokenCountedTwice() returns (wordsAdded: int, t: LexiconTrie)
    ensures wordsAdded == 2
    ensures t.Valid() && t.Words() == {"a"} && t.numWords == 1
  {
    t := new LexiconTrie();
    assert ["a", "a"][..1] == ["a"] && ["a"][..0] == [];
    assert TokenPrefixes(["a"]) == Prefixes("a");
    assert NewPathTokens({[]}, ["a"]) == {"a"};
    assert NewPathTokens({[]}, ["a", "a"]) == {"a"};
    wordsAdded := t.AddWordsAsWritten(["a", "a"]);
  }

  /** A new lexicon after addWord(w) for a non-empty word `w`. */
  method StoreOne(w: string) returns (t: LexiconTrie)
    requires w != []
    ensures fresh(t) && fresh(t.Nodes)
    ensures t.Valid() && t.numWords == 1
    ensures t.Paths() == {[]} + Prefixes(w) && t.Words() == {w}
  {
    t := new LexiconTrie();
    var _ := t.AddWord(w);
  }

  /** addWord("car") on a lexicon storing only `card`: the answer is false
      and `car` is not stored, although it was not in the lexicon. */
  method PrefixWordRefused() returns (added: bool, t: LexiconTrie)
    ensures !added
    ensures t.Valid() && t.Words() == {"card"} && t.numWords == 1
  {
    t := StoreOne("card");
    assert "car" in t.Paths() by {
      assert IsPrefix("car", "card");
    }
    added := t.AddWord("car");
  }

  /** removeWord("car") on a lexicon storing only `card`: the answer is true
      and the counter drops to 0, while `card` is still stored. */
  method NonWordRemovalMiscounts() returns (c: Completion, t: LexiconTrie)
    ensures c == Normal(true)
    ensures t.Valid() && t.Words() == {"card"} && t.numWords == 0
  {
    t := StoreOne("card");
    assert "car" in t.Paths() by {
      assert IsPrefix("car", "card");
    }
    ghost var last;
    c, last := t.RemoveWord("car");
    CardSurvives(|t.PathOf[last]|);
  }

  /** Whatever the depth of the clean-up, removing `car` keeps `card`. */
  lemma CardSurvives(d: nat)
    ensures Cut({"card"} - {"car"}, "car", d) == {"card"}
  {
    assert !IsPrefix("card", "car");
  }

  /** A new lexicon after addWord("car") and addWord("card"). */
  method StoreCarCard() returns (t: LexiconTrie)
    ensures fresh(t) && fresh(t.Nodes)
    ensures t.Valid() && t.numWords == 2
    ensures t.Paths() == {[]} + Prefixes("car") + Prefixes("card")
    ensures t.Words() == {"car", "card"}
  {
    CarCardXPrefixes();
    t := StoreOne("car");
    var _ := t.AddWord("card");
  }

  /** A new lexicon after addWord("car"), addWord("card") and addWord("x"). */
  method StoreCarCardX() returns (t: LexiconTrie)
    ensures fresh(t) && fresh(t.Nodes)
    ensures t.Valid() && t.numWords == 3
    ensures t.Paths() == {"", "c", "ca", "car", "card", "x"}
    ensures t.Words() == {"car", "card", "x"}
  {
    CarCardXPrefixes();
    t := StoreCarCard();
    var _ := t.AddWord("x");
  }

  /** The strings the three words of StoreCarCardX spell. */
  lemma CarCardXPrefixes()
    ensures "card" !in {[]} + Prefixes("car")
    ensures "x" !in {[]} + Prefixes("car") + Prefixes("card")
    ensures {[]} + Prefixes("car") + Prefixes("card") + Prefixes("x") == {"", "c", "ca", "car", "card", "x"}
    ensures !IsPrefix("x", "card") && IsPrefix("car", "card")
  {
    assert "car"[..0] == "" && "car"[..1] == "c" && "car"[..2] == "ca" && "car"[..3] == "car";
    assert "card"[..1] == "c" && "card"[..2] == "ca" && "card"[..3] == "car" && "card"[..4] == "card";
    assert "x"[..0] == "" && "x"[..1] == "x";
    assert !IsPrefix("card", "car") && !IsPrefix("x", "car") && !IsPrefix("x", "card");
    forall p | p in Prefixes("card") + Prefixes("x")
      ensures p in {"", "c", "ca", "car", "card", "x"}
    {
      if p in Prefixes("card") {
        assert p == "card"[..|p|] && |p| <= 4;
      } else {
        assert p == "x"[..|p|] && |p| <= 1;
      }
    }
  }

  /** removeWord("card") on a lexicon storing `car`, `card` and `x`: the
      clean-up detaches the node of `car` as well, so only `x` is left, while
      the counter says two words. */
  method RemovalLosesShorterWord() returns (c: Completion, t: LexiconTrie)
    ensures c == Normal(true)
    ensures t.Valid() && t.Words() == {"x"} && t.numWords == 2
  {
    CarCardXPrefixes();
    t := StoreCarCardX();
    ghost var last;
    c, last := t.RemoveWord("card");
    assert "x" in t.Words();
    ghost var q := t.ChildPath(last);
    StopAtRoot(|t.PathOf[last]|, q);
  }

  /** Removing `card` from the paths `car`, `card`, `x` and their prefixes,
      a clean-up that keeps a path `q` one letter longer than its stop along
      `card` stops at the root, and `car` goes with `card`. */
  lemma StopAtRoot(d: nat, q: string)
    requires d <= |"card"|
    requires q in Cut({"", "c", "ca", "car", "card", "x"}, "card", d)
    requires |q| == d + 1 && IsPrefix("card"[..d], q)
    ensures d == 0
    ensures Cut({"car", "card", "x"} - {"card"}, "card", d) == {"x"}
  {
    if d > 0 {
      assert q[..d] == "card"[..d] && q in {"c", "ca", "car", "card"};
      assert IsPrefix(q, "card");
    }
    assert IsPrefix("car", "card");
  }

  /** removeWord("a") on a lexicon storing only `a`: the clean-up reaches the
      root and dereferences its null parent, before the counter goes down. */
  method LastWordRemovalThrows() returns (c: Completion, t: LexiconTrie)
    ensures c == NullPointerException
    ensures t.Valid() && t.Words() == {} && t.numWords == 1
  {
    t := StoreOne("a");
    assert t.Paths() == {"", "a"} by {
      assert "a"[..0] == "" && "a"[..1] == "a";
    }
    ghost var last;
    c, last := t.RemoveWord("a");
    if c == Normal(true) {
      ghost var q := t.ChildPath(last);
      assert false;
    }
  }
}
