/** String vocabulary of the lexicon: prefixes, the lexicographic order in which
    the trie enumerates its words, and the substitution distance that correction
    suggestions are bounded by. */
module Strings {

  /** `p` is a prefix of `w`; every string is a prefix of itself. */
  predicate IsPrefix(p: string, w: string) {
    |p| <= |w| && w[..|p|] == p
  }

  /** All prefixes of `w`, from the empty string up to `w` itself. */
  function Prefixes(w: string): (ps: set<string>)
    ensures [] in ps && w in ps
    ensures forall p :: p in ps <==> IsPrefix(p, w)
  {
    assert w[..0] == [] && w[..|w|] == w;
    set k | 0 <= k <= |w| :: w[..k]
  }

  /** Growing a string by its next character adds exactly one prefix. */
  lemma PrefixesGrow(w: string, k: nat)
    requires k < |w|
    ensures Prefixes(w[..k + 1]) == Prefixes(w[..k]) + {w[..k + 1]}
  {
    forall p | IsPrefix(p, w[..k + 1]) && p != w[..k + 1]
      ensures IsPrefix(p, w[..k])
    {
      assert w[..k + 1][..|p|] == w[..k][..|p|];
    }
    forall p | IsPrefix(p, w[..k])
      ensures IsPrefix(p, w[..k + 1])
    {
      assert w[..k + 1][..|p|] == w[..k][..|p|];
    }
  }

  /** Set algebra for a run that grows a set one element at a time. */
  lemma GrowByNew<T>(known: set<T>, grown: set<T>, x: T)
    ensures known + grown + {x} == known + (grown + {x})
  {
  }

  lemma GrowByKnown<T>(known: set<T>, grown: set<T>, x: T)
    requires x in known + grown
    ensures known + grown == known + (grown + {x})
  {
  }

  lemma GrowByAll<T>(known: set<T>, grown: set<T>, xs: set<T>)
    ensures known + grown + xs == known + (grown + xs)
  {
  }

  lemma GrowByKnownAll<T>(known: set<T>, grown: set<T>, xs: set<T>)
    requires xs <= known + grown
    ensures known + grown == known + (grown + xs)
  {
  }

  lemma CountOneMore<T>(a: set<T>, x: T)
    requires x !in a
    ensures |a + {x}| == |a| + 1
  {
  }

  /** The first `k + 1` letters are the first `k` and the next one. */
  lemma TakeStep(w: string, k: nat)
    requires k < |w|
    ensures w[..k + 1] == w[..k] + [w[k]] && w[..k + 1][..k] == w[..k]
  {
  }

  /** Taking every letter gives the string back. */
  lemma TakeAll(w: string, k: nat)
    requires k == |w|
    ensures w[..k] == w
  {
  }

  /** A proper prefix grows by the next letter of the string. */
  lemma PrefixStep(q: string, w: string)
    requires IsPrefix(q, w) && |q| < |w|
    ensures IsPrefix(q + [w[|q|]], w)
  {
    assert w[..|q| + 1] == w[..|q|] + [w[|q|]];
  }

  /** Some word of `words` starts with `q`. */
  predicate LeadsToWord(q: string, words: set<string>) {
    exists w | w in words :: IsPrefix(q, w)
  }

  /** Every non-empty string of `paths` starts some word of `words`. */
  predicate AllLeadToWords(paths: set<string>, words: set<string>) {
    forall q | q in paths && q != [] :: LeadsToWord(q, words)
  }

  /** Adding a word together with its prefixes keeps every string leading to
      a word. */
  lemma AllLeadToWordsGrow(paths: set<string>, words: set<string>, w: string)
    requires AllLeadToWords(paths, words)
    ensures AllLeadToWords(paths + Prefixes(w), words + {w})
  {
    forall q | q in paths + Prefixes(w) && q != []
      ensures LeadsToWord(q, words + {w})
    {
      if q in paths {
        var v :| v in words && IsPrefix(q, v);
        assert v in words + {w};
      } else {
        assert IsPrefix(q, w) && w in words + {w};
      }
    }
  }

  /** `q` is one of the prefixes of `p` that are longer than `depth`: the nodes
      spelling these are the ones an upward clean-up from `p` detaches when it
      stops at depth `depth`. */
  predicate Detached(q: string, p: string, depth: nat) {
    IsPrefix(q, p) && depth < |q|
  }

  /** Every string of `paths` that runs through a prefix of `p` longer than
      `depth` is itself a prefix of `p`: below depth `depth`, the paths reach
      nothing but the chain that spells `p`. */
  ghost predicate ChainOnly(paths: set<string>, p: string, depth: nat) {
    forall q | q in paths && depth < |q| && IsPrefix(q[..depth + 1], p) :: IsPrefix(q, p)
  }

  /** What is left of `s` once an upward clean-up from `p` that stops at depth
      `depth` has detached the prefixes of `p` longer than `depth`. */
  function Cut(s: set<string>, p: string, depth: nat): set<string>
  {
    set q | q in s && !Detached(q, p, depth)
  }

  /** A clean-up that stops at `p` itself detaches nothing. */
  lemma CutNothing(s: set<string>, p: string)
    ensures Cut(s, p, |p|) == s
  {
  }

  /** Detaching from `p` down to depth `depth` is detaching `p` itself, then
      from `p` minus its last character down to the same depth. */
  lemma CutStep(s: set<string>, p: string, depth: nat)
    requires depth < |p|
    ensures Cut(s - {p}, p[..|p| - 1], depth) == Cut(s, p, depth)
  {
    forall q
      ensures q in Cut(s - {p}, p[..|p| - 1], depth) <==> q in Cut(s, p, depth)
    {
      if |q| < |p| {
        assert p[..|p| - 1][..|q|] == p[..|q|];
      } else {
        assert p[..|p|] == p;
      }
    }
  }

  /** One step of the upward clean-up keeps ChainOnly: `p` ends its own paths
      (no path strictly extends it), and the chain from its parent on is the
      only thing below depth `depth` once `p` is gone. */
  lemma ChainStep(paths: set<string>, p: string, depth: nat)
    requires depth < |p|
    requires forall q | q in paths && IsPrefix(p, q) :: q == p
    requires ChainOnly(paths - {p}, p[..|p| - 1], depth)
    ensures ChainOnly(paths, p, depth)
  {
    var pp := p[..|p| - 1];
    forall q | q in paths && depth < |q| && IsPrefix(q[..depth + 1], p)
      ensures IsPrefix(q, p)
    {
      if q != p {
        // depth == |pp| would put p on q, so q == p.
        if depth < |pp| {
          assert q[..depth + 1] == pp[..depth + 1];
          assert IsPrefix(q, pp);
          assert p[..|q|] == pp[..|q|];
        }
      }
    }
  }

  /** A clean-up from `p` that stops at depth `depth`, where a path `r` one
      letter longer than the stop survives, keeps every remaining string
      leading to a remaining word, once `p` itself is no longer stored. */
  lemma AllLeadToWordsCut(paths: set<string>, words: set<string>, p: string, depth: nat, r: string)
    requires AllLeadToWords(paths, words)
    requires depth <= |p| && r in Cut(paths, p, depth) && |r| == depth + 1 && IsPrefix(p[..depth], r)
    ensures AllLeadToWords(Cut(paths, p, depth), Cut(words - {p}, p, depth))
  {
    var kept := Cut(words - {p}, p, depth);
    var u :| u in words && IsPrefix(r, u);
    assert u in kept;
    forall q | q in Cut(paths, p, depth) && q != []
      ensures LeadsToWord(q, kept)
    {
      var v :| v in words && IsPrefix(q, v);
      if v in kept {
      } else {
        assert IsPrefix(v, p);
        assert q == p[..|q|] == r[..|q|];
        assert IsPrefix(q, u);
      }
    }
  }

  /** Lexicographic order on strings, character by character: a proper
      prefix comes first, otherwise the first differing character decides.
      For text whose characters are single UTF-16 code units this is the
      order of Java's String.compareTo. */
  predicate LexLess(a: string, b: string) {
    b != [] && (a == [] || a[0] < b[0] || (a[0] == b[0] && LexLess(a[1..], b[1..])))
  }

  /** A sequence of strings in strictly increasing lexicographic order. */
  predicate StrictlyIncreasing(ws: seq<string>) {
    forall i, j :: 0 <= i < j < |ws| ==> LexLess(ws[i], ws[j])
  }

  lemma {:induction false} LexLessIrreflexive(a: string)
    ensures !LexLess(a, a)
  {
    if a != [] {
      LexLessIrreflexive(a[1..]);
    }
  }

  lemma {:induction false} LexLessTransitive(a: string, b: string, c: string)
    requires LexLess(a, b) && LexLess(b, c)
    ensures LexLess(a, c)
  {
    if a != [] && a[0] == b[0] && b[0] == c[0] {
      LexLessTransitive(a[1..], b[1..], c[1..]);
    }
  }

  lemma {:induction false} LexLessTotal(a: string, b: string)
    requires a != b
    ensures LexLess(a, b) || LexLess(b, a)
  {
    if a != [] && b != [] && a[0] == b[0] {
      assert a == [a[0]] + a[1..] && b == [b[0]] + b[1..];
      LexLessTotal(a[1..], b[1..]);
    }
  }

  /** A proper prefix is lexicographically smaller. */
  lemma {:induction false} LexLessProperPrefix(a: string, b: string)
    requires |a| < |b| && b[..|a|] == a
    ensures LexLess(a, b)
  {
    if a != [] {
      assert a[1..] == b[1..][..|a| - 1];
      LexLessProperPrefix(a[1..], b[1..]);
    }
  }

  /** Two strings that agree up to position `k` and differ there are ordered
      by the characters at `k`. */
  lemma {:induction false} LexLessAt(a: string, b: string, k: nat)
    requires k < |a| && k < |b| && a[..k] == b[..k] && a[k] < b[k]
    ensures LexLess(a, b)
  {
    if k > 0 {
      assert a[0] == a[..k][0] && b[0] == b[..k][0];
      assert a[1..][..k - 1] == a[..k][1..] && b[1..][..k - 1] == b[..k][1..];
      LexLessAt(a[1..], b[1..], k - 1);
    }
  }

  /** Strictly increasing sequences have no repeated element. */
  lemma IncreasingHasNoDuplicates(ws: seq<string>, i: nat, j: nat)
    requires StrictlyIncreasing(ws) && i < j < |ws|
    ensures ws[i] != ws[j]
  {
    LexLessIrreflexive(ws[i]);
  }

  /** Two increasing runs, every element of the first below every element of
      the second, concatenate to an increasing run. */
  lemma ConcatIncreasing(a: seq<string>, b: seq<string>)
    requires StrictlyIncreasing(a) && StrictlyIncreasing(b)
    requires forall x, y :: x in a && y in b ==> LexLess(x, y)
    ensures StrictlyIncreasing(a + b)
  {
    var ab := a + b;
    forall i, j | 0 <= i < j < |ab|
      ensures LexLess(ab[i], ab[j])
    {
      if j < |a| {
        assert ab[i] == a[i] && ab[j] == a[j];
      } else if i >= |a| {
        assert ab[i] == b[i - |a|] && ab[j] == b[j - |a|];
      } else {
        assert ab[i] == a[i] && ab[j] == b[j - |a|];
        assert ab[i] in a && ab[j] in b;
      }
    }
  }

  /** Substitution (Hamming) distance: the number of positions at which two
      strings of equal length differ. */
  function Hamming(a: string, b: string): nat
    requires |a| == |b|
  {
    if a == [] then 0
    else (if a[0] != b[0] then 1 else 0) + Hamming(a[1..], b[1..])
  }

  lemma {:induction false} HammingZero(a: string, b: string)
    requires |a| == |b|
    ensures Hamming(a, b) == 0 <==> a == b
  {
    if a != [] {
      HammingZero(a[1..], b[1..]);
      if a[0] == b[0] && a[1..] == b[1..] {
        assert a == [a[0]] + a[1..] && b == [b[0]] + b[1..];
      }
    }
  }

  lemma {:induction false} HammingSymmetric(a: string, b: string)
    requires |a| == |b|
    ensures Hamming(a, b) == Hamming(b, a)
  {
    if a != [] {
      HammingSymmetric(a[1..], b[1..]);
    }
  }

  lemma {:induction false} HammingBounded(a: string, b: string)
    requires |a| == |b|
    ensures Hamming(a, b) <= |a|
  {
    if a != [] {
      HammingBounded(a[1..], b[1..]);
    }
  }
}
