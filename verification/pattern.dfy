/** The wildcard patterns of the lexicon's matcher, as a relation between a
    pattern and a word that does not mention the trie. `*` stands for any run of
    characters, `?` for at most one, `_` for exactly one; every other character
    stands for itself. The relation follows the trie matcher step by step,
    including its look-ahead on `*`, which makes it differ from glob matching. */
module Pattern {

  predicate IsWildcard(c: char) {
    c == '*' || c == '?' || c == '_'
  }

  /** The character `*` looks ahead to: the first character of `pat` that is
      not `*`, or a blank when there is none. */
  function NextChar(pat: string): (c: char)
    ensures (forall i :: 0 <= i < |pat| ==> pat[i] == '*') ==> c == ' '
    ensures forall i :: 0 <= i < |pat| && pat[i] != '*' && (forall j :: 0 <= j < i ==> pat[j] == '*') ==> c == pat[i]
  {
    if pat == [] then ' '
    else if pat[0] != '*' then pat[0]
    else
      var c := NextChar(pat[1..]);
      assert forall i :: 1 <= i < |pat| ==> pat[i] == pat[1..][i - 1];
      c
  }

  /** The search loop that computes `nextChar` in the matcher's `*` case. */
  method FindNextChar(currPattern: string) returns (nextChar: char)
    ensures nextChar == NextChar(currPattern)
  {
    nextChar := ' ';
    var i := 0;
    while i < |currPattern|
      invariant 0 <= i <= |currPattern|
      invariant forall j :: 0 <= j < i ==> currPattern[j] == '*'
      invariant nextChar == ' '
    {
      if currPattern[i] != '*' {
        nextChar := currPattern[i];
        return;
      }
      i := i + 1;
    }
  }

  /** What is left of a pattern that starts with `*` once the star has taken
      the character `c`: the star goes when `c` is the character it looks
      ahead to, and stays otherwise. */
  function AfterStar(pat: string, lookAhead: char, c: char): string
    requires pat != []
  {
    if c == lookAhead then pat[1..] else pat
  }

  /** Orders the pattern cases so that rewriting `?` into `_` and `_` into a
      literal makes progress. */
  function Rank(pat: string): nat {
    if pat == [] then 0
    else if pat[0] == '?' then 2
    else if pat[0] == '_' then 1
    else 0
  }

  /** The word `w` matches the pattern `pat`. On `*` the matcher either lets the
      star match nothing, or consumes one character of the word; when that
      character equals the character the star looks ahead to, it also drops
      that star. */
  predicate Matches(pat: string, w: string)
    decreases |w|, |pat|, Rank(pat)
  {
    if pat == [] then w == []
    else if pat[0] == '*' then
      Matches(pat[1..], w)
      || (w != [] && Matches(AfterStar(pat, NextChar(pat), w[0]), w[1..]))
    else if pat[0] == '_' then w != [] && Matches(pat[1..], w[1..])
    else if pat[0] == '?' then Matches(pat[1..], w) || Matches(['_'] + pat[1..], w)
    else w != [] && w[0] == pat[0] && Matches(pat[1..], w[1..])
  }

  /** A pattern of literals and `_` only matches exactly the words of its own
      length that agree with it at every literal position. */
  lemma {:induction false} FixedWidthMatches(pat: string, w: string)
    requires forall i :: 0 <= i < |pat| ==> pat[i] != '*' && pat[i] != '?'
    ensures Matches(pat, w) <==> |w| == |pat| && forall i :: 0 <= i < |pat| && pat[i] != '_' ==> w[i] == pat[i]
  {
    if pat != [] && w != [] {
      FixedWidthMatches(pat[1..], w[1..]);
      assert forall i :: 1 <= i < |pat| ==> pat[i] == pat[1..][i - 1];
      if |w| == |pat| {
        assert forall i :: 1 <= i < |w| ==> w[i] == w[1..][i - 1];
      }
    }
  }

  /** A pattern without wildcards matches itself and nothing else. */
  lemma LiteralMatches(pat: string, w: string)
    requires forall i :: 0 <= i < |pat| ==> !IsWildcard(pat[i])
    ensures Matches(pat, w) <==> w == pat
  {
    FixedWidthMatches(pat, w);
    if |w| == |pat| && forall i :: 0 <= i < |pat| ==> w[i] == pat[i] {
      assert w == pat;
    }
  }

  /** A pattern of `?` only matches exactly the words no longer than it. */
  lemma {:induction false} QuestionMarksMatch(pat: string, w: string)
    requires forall i :: 0 <= i < |pat| ==> pat[i] == '?'
    ensures Matches(pat, w) <==> |w| <= |pat|
  {
    if pat != [] {
      assert forall i :: 0 <= i < |pat| - 1 ==> pat[1..][i] == pat[i + 1];
      QuestionMarksMatch(pat[1..], w);
      if w != [] {
        QuestionMarksMatch(pat[1..], w[1..]);
      }
    }
  }

  /** After a run of literals and `_`, a `?` matches what deleting it matches
      together with what replacing it by `_` matches. */
  lemma {:induction false} QuestionMarkSplits(a: string, b: string, w: string)
    requires forall i :: 0 <= i < |a| ==> a[i] != '*' && a[i] != '?'
    ensures Matches(a + ['?'] + b, w) <==> Matches(a + b, w) || Matches(a + ['_'] + b, w)
  {
    var q, d, u := a + ['?'] + b, a + b, a + ['_'] + b;
    if a == [] {
      assert q == ['?'] + b && q[1..] == b && d == b && u == ['_'] + b;
    } else {
      var a' := a[1..];
      assert q[0] == d[0] == u[0] == a[0] && a[0] != '*' && a[0] != '?';
      assert q[1..] == a' + ['?'] + b && d[1..] == a' + b && u[1..] == a' + ['_'] + b;
      if w != [] {
        assert forall i :: 0 <= i < |a'| ==> a'[i] == a[i + 1];
        QuestionMarkSplits(a', b, w[1..]);
      }
    }
  }

  /** A non-empty pattern of `*` only matches every word without a blank, the
      character such a pattern looks ahead to. */
  lemma {:induction false} StarsMatchAll(pat: string, w: string)
    requires pat != [] && forall i :: 0 <= i < |pat| ==> pat[i] == '*'
    requires forall i :: 0 <= i < |w| ==> w[i] != ' '
    ensures Matches(pat, w)
    decreases |w|, |pat|
  {
    if w == [] {
      if |pat| > 1 {
        StarsMatchAll(pat[1..], w);
      }
    } else {
      assert NextChar(pat) == ' ';
      StarsMatchAll(pat, w[1..]);
    }
  }

  /** Unlike a glob, `*a` does not match `aba`: the star is dropped at the first
      `a`, and the rest `ba` does not match `a`. It does match `ba`. */
  lemma StarLookAheadIsNotGlob()
    ensures !Matches("*a", "aba")
    ensures Matches("*a", "ba")
  {
    assert NextChar("*a") == 'a';
    assert "*a"[1..] == "a" && "aba"[1..] == "ba" && "ba"[1..] == "a" && "a"[1..] == [];
    assert !Matches("a", "ba");
    assert !Matches("a", "aba");
    assert Matches("a", "a");
    assert Matches("*a", "a");
  }
}
