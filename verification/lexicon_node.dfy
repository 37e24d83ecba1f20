/** One vertex of the lexicon trie: a character, a word-end flag, a link to the
    parent and the list of children, which insertion keeps ordered by
    character. */
module Node {

  /** The characters of a list of nodes, in list order. */
  function CharsOf(s: seq<LexiconNode>): seq<char>
  {
    seq(|s|, i requires 0 <= i < |s| => s[i].nodeChar)
  }

  lemma CharsOfAt(s: seq<LexiconNode>)
    ensures |CharsOf(s)| == |s| && forall i :: 0 <= i < |s| ==> CharsOf(s)[i] == s[i].nodeChar
  {
  }

  predicate Sorted(cs: seq<char>) {
    forall i, j :: 0 <= i < j < |cs| ==> cs[i] <= cs[j]
  }

  predicate StrictlySorted(cs: seq<char>) {
    forall i, j :: 0 <= i < j < |cs| ==> cs[i] < cs[j]
  }

  /** Where addChild puts a child with character `c`: before the first
      character strictly greater than `c`, or at the end when there is none. */
  function InsertPos(cs: seq<char>, c: char): (k: nat)
    ensures k <= |cs|
    ensures forall j :: 0 <= j < k ==> cs[j] <= c
    ensures k < |cs| ==> c < cs[k]
  {
    if cs == [] || c < cs[0] then 0
    else 1 + InsertPos(cs[1..], c)
  }

  /** The list `s` with `x` placed at index `k`. */
  function InsertAt<T>(s: seq<T>, x: T, k: nat): (r: seq<T>)
    requires k <= |s|
  {
    s[..k] + [x] + s[k..]
  }

  lemma InsertAtFacts(s: seq<LexiconNode>, x: LexiconNode, k: nat)
    requires k <= |s|
    ensures CharsOf(InsertAt(s, x, k)) == InsertAt(CharsOf(s), x.nodeChar, k)
    ensures forall y :: y in InsertAt(s, x, k) <==> y in s || y == x
  {
    var r := InsertAt(s, x, k);
    assert forall y :: y in s <==> y in s[..k] || y in s[k..] by {
      assert s == s[..k] + s[k..];
    }
  }

  /** Inserting at InsertPos keeps a sorted list sorted. */
  lemma InsertKeepsSorted(cs: seq<char>, c: char)
    requires Sorted(cs)
    ensures Sorted(InsertAt(cs, c, InsertPos(cs, c)))
  {
    var k := InsertPos(cs, c);
    var r := InsertAt(cs, c, k);
    forall i, j | 0 <= i < j < |r|
      ensures r[i] <= r[j]
    {
      if j < k || i > k {
        assert r[i] == (if i < k then cs[i] else cs[i - 1]);
        assert r[j] == (if j < k then cs[j] else cs[j - 1]);
      } else if i == k {
        assert r[j] == cs[j - 1] && c < cs[k] && cs[k] <= cs[j - 1];
      } else {
        assert r[i] == cs[i] && r[j] == (if j == k then c else cs[j - 1]);
        assert j > k ==> c < cs[k] && cs[i] <= cs[k] && cs[k] <= cs[j - 1];
      }
    }
  }

  /** Inserting a character the list lacks keeps a strictly sorted list
      strictly sorted, so sibling characters stay distinct. */
  lemma InsertKeepsStrictlySorted(cs: seq<char>, c: char)
    requires StrictlySorted(cs) && c !in cs
    ensures StrictlySorted(InsertAt(cs, c, InsertPos(cs, c)))
  {
    var k := InsertPos(cs, c);
    var r := InsertAt(cs, c, k);
    forall i, j | 0 <= i < j < |r|
      ensures r[i] < r[j]
    {
      if j < k || i > k {
        assert r[i] == (if i < k then cs[i] else cs[i - 1]);
        assert r[j] == (if j < k then cs[j] else cs[j - 1]);
      } else if i == k {
        assert r[j] == cs[j - 1] && c < cs[k] && cs[k] <= cs[j - 1];
      } else {
        assert r[i] == cs[i] && cs[i] != c && cs[i] <= c;
        assert j > k ==> c < cs[k] && cs[i] <= cs[k] && cs[k] <= cs[j - 1] && r[j] == cs[j - 1];
      }
    }
  }

  /** The index of the first occurrence of `x` in `s`. */
  function IndexOf<T(==)>(s: seq<T>, x: T): (i: nat)
    requires x in s
    ensures i < |s| && s[i] == x && x !in s[..i]
  {
    if s[0] == x then 0
    else
      var j := IndexOf(s[1..], x);
      assert s[..j + 1] == [s[0]] + s[1..][..j];
      1 + j
  }

  /** Java's List.remove(Object) on a list of nodes, which compare by
      identity: the first occurrence of `x` goes, the rest keep their order. */
  function RemoveFirst<T(==)>(s: seq<T>, x: T): (r: seq<T>)
    ensures x !in s ==> r == s
    ensures |r| == if x in s then |s| - 1 else |s|
  {
    if s == [] then []
    else if s[0] == x then s[1..]
    else [s[0]] + RemoveFirst(s[1..], x)
  }

  /** RemoveFirst cuts out exactly the first occurrence. */
  lemma {:induction false} RemoveFirstCuts<T>(s: seq<T>, x: T)
    requires x in s
    ensures RemoveFirst(s, x) == s[..IndexOf(s, x)] + s[IndexOf(s, x) + 1..]
  {
    if s[0] != x {
      RemoveFirstCuts(s[1..], x);
      var j := IndexOf(s[1..], x);
      assert s[..j + 1] == [s[0]] + s[1..][..j];
      assert s[j + 2..] == s[1..][j + 1..];
    }
  }

  /** Removing a node from a list whose characters are strictly sorted keeps
      them strictly sorted and takes out exactly that node. */
  lemma RemoveKeepsStrictlySorted(s: seq<LexiconNode>, x: LexiconNode)
    requires StrictlySorted(CharsOf(s))
    ensures StrictlySorted(CharsOf(RemoveFirst(s, x)))
    ensures forall c :: c in RemoveFirst(s, x) <==> c in s && c != x
  {
    if x in s {
      var i := IndexOf(s, x);
      RemoveFirstCuts(s, x);
      RemoveAtIndex(s, i);
    }
  }

  lemma RemoveAtIndex(s: seq<LexiconNode>, i: nat)
    requires StrictlySorted(CharsOf(s)) && i < |s|
    ensures StrictlySorted(CharsOf(s[..i] + s[i + 1..]))
    ensures forall c :: c in s[..i] + s[i + 1..] <==> c in s && c != s[i]
  {
    var r := s[..i] + s[i + 1..];
    assert forall a :: 0 <= a < |r| ==> r[a] == s[if a < i then a else a + 1];
    forall a, b | 0 <= a < b < |r|
      ensures r[a].nodeChar < r[b].nodeChar
    {
      assert CharsOf(s)[if a < i then a else a + 1] < CharsOf(s)[if b < i then b else b + 1];
    }
    forall c | c in r
      ensures c in s && c != s[i]
    {
      var a :| 0 <= a < |r| && r[a] == c;
      var b := if a < i then a else a + 1;
      assert s[b] == c && b != i;
      assert CharsOf(s)[b] != CharsOf(s)[i];
    }
    forall c | c in s && c != s[i]
      ensures c in r
    {
      var b :| 0 <= b < |s| && s[b] == c;
      assert c == (if b < i then r[b] else r[b - 1]);
    }
  }

  class LexiconNode {
    var children: seq<LexiconNode>
    /** The parent is fixed when the node is created (null for the root). */
    const parent: LexiconNode?
    /** The character is fixed when the node is created. */
    const nodeChar: char
    var isFullWordNode: bool

    constructor (nodeChar: char, isFullWordNode: bool, parent: LexiconNode?)
      ensures this.nodeChar == nodeChar && this.isFullWordNode == isFullWordNode && this.parent == parent
      ensures children == []
    {
      this.parent := parent;
      this.nodeChar := nodeChar;
      this.children := [];
      this.isFullWordNode := isFullWordNode;
    }

    /** Inserts `newChild` before the first child with a strictly greater
        character, or appends it when there is none. */
    method AddChild(newChild: LexiconNode)
      modifies this`children
      ensures children == InsertAt(old(children), newChild, InsertPos(CharsOf(old(children)), newChild.nodeChar))
    {
      CharsOfAt(children);
      if |children| != 0 {
        var i := 0;
        while i < |children|
          invariant 0 <= i <= |children|
          invariant children == old(children)
          invariant forall j :: 0 <= j < i ==> children[j].nodeChar <= newChild.nodeChar
        {
          var currChar := children[i].nodeChar;
          if newChild.nodeChar < currChar {
            children := children[..i] + [newChild] + children[i..];
            return;
          }
          i := i + 1;
        }
      }
      children := children + [newChild];
    }

    /** Removes `exChild` (by identity) from the children, if present. */
    method RemoveChild(exChild: LexiconNode)
      modifies this`children
      ensures children == RemoveFirst(old(children), exChild)
    {
      children := RemoveFirst(children, exChild);
    }

    /** The first child whose character is `charOfInt`, or null when no child
        has it. */
    method GetChild(charOfInt: char) returns (child: LexiconNode?)
      ensures child == null <==> charOfInt !in CharsOf(children)
      ensures child != null ==> child in children && child.nodeChar == charOfInt
      ensures child != null ==>
        exists i :: 0 <= i < |children| && children[i] == child && child.nodeChar == charOfInt
                    && forall j :: 0 <= j < i ==> children[j].nodeChar != charOfInt
    {
      CharsOfAt(children);
      var i := 0;
      while i < |children|
        invariant 0 <= i <= |children|
        invariant forall j :: 0 <= j < i ==> children[j].nodeChar != charOfInt
      {
        if children[i].nodeChar == charOfInt {
          return children[i];
        }
        i := i + 1;
      }
      return null;
    }

    /** The children in list order; when the list is sorted, in ascending
        order of character. */
    function Iterator(): (it: seq<LexiconNode>)
      reads this
      ensures |it| == |children| && forall i :: 0 <= i < |it| ==> it[i] == children[i]
      ensures Sorted(CharsOf(children)) ==> forall i, j :: 0 <= i < j < |it| ==> it[i].nodeChar <= it[j].nodeChar
    {
      CharsOfAt(children);
      children
    }

    function HasChildren(): (b: bool)
      reads this
      ensures b <==> |children| > 0
    {
      children != []
    }

    method SetIsFullWordNode(b: bool)
      modifies this`isFullWordNode
      ensures isFullWordNode == b
    {
      isFullWordNode := b;
    }
  }
}
