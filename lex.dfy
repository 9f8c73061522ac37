/** Ordinal (code-unit) lexicographic order on strings, and sortedness of sequences. */
module Lex {

  /** `a` sorts strictly before `b`: either `a` is a proper prefix of `b`, or they first differ at a
      position where `a` has the smaller character. */
  predicate Less(a: string, b: string)
    decreases |a|
  {
    if a == [] then b != []
    else b != [] && (a[0] < b[0] || (a[0] == b[0] && Less(a[1..], b[1..])))
  }

  /** Every element sorts strictly before every later element. */
  ghost predicate StrictlyAscending(s: seq<string>) {
    forall i, j :: 0 <= i < j < |s| ==> Less(s[i], s[j])
  }

  /** Strictly ascending characters (the order in which a SortedList<char, _> enumerates). */
  ghost predicate CharsAscending(s: seq<char>) {
    forall i, j :: 0 <= i < j < |s| ==> s[i] < s[j]
  }

  /** True when `p` is a prefix of `s`. */
  predicate IsPrefix(p: string, s: string) {
    |p| <= |s| && s[..|p|] == p
  }

  lemma {:induction false} LessIrreflexive(a: string)
    ensures !Less(a, a)
    decreases |a|
  {
    if a != [] {
      LessIrreflexive(a[1..]);
    }
  }

  /** Two strings that agree on `p` and then differ sort by the first differing character. */
  lemma {:induction false} LessAtFork(p: string, c1: char, c2: char, x: string, y: string)
    requires c1 < c2
    ensures Less(p + [c1] + x, p + [c2] + y)
    decreases |p|
  {
    var a, b := p + [c1] + x, p + [c2] + y;
    if p == [] {
      assert a[0] == c1 && b[0] == c2;
    } else {
      assert a[0] == b[0] == p[0];
      assert a[1..] == p[1..] + [c1] + x;
      assert b[1..] == p[1..] + [c2] + y;
      LessAtFork(p[1..], c1, c2, x, y);
    }
  }

  /** A shared prefix does not change the order. */
  lemma {:induction false} LessPrefixed(p: string, x: string, y: string)
    requires Less(x, y)
    ensures Less(p + x, p + y)
    decreases |p|
  {
    if p != [] {
      assert (p + x)[0] == (p + y)[0] == p[0];
      assert (p + x)[1..] == p[1..] + x;
      assert (p + y)[1..] == p[1..] + y;
      LessPrefixed(p[1..], x, y);
    } else {
      assert p + x == x && p + y == y;
    }
  }

  /** Strict ascent implies that no element occurs twice. */
  lemma AscendingDistinct(s: seq<string>)
    requires StrictlyAscending(s)
    ensures forall i, j :: 0 <= i < j < |s| ==> s[i] != s[j]
  {
    forall i, j | 0 <= i < j < |s|
      ensures s[i] != s[j]
    {
      LessIrreflexive(s[i]);
    }
  }

  /** Two ascending runs whose elements are ordered across the seam form one ascending run. */
  lemma AscendingConcat(a: seq<string>, b: seq<string>)
    requires StrictlyAscending(a) && StrictlyAscending(b)
    requires forall x, y :: x in a && y in b ==> Less(x, y)
    ensures StrictlyAscending(a + b)
  {
    var s := a + b;
    forall i, j | 0 <= i < j < |s|
      ensures Less(s[i], s[j])
    {
      if j < |a| {
        assert s[i] == a[i] && s[j] == a[j];
      } else if i >= |a| {
        assert s[i] == b[i - |a|] && s[j] == b[j - |a|];
      } else {
        assert s[i] == a[i] && s[j] == b[j - |a|];
      }
    }
  }

  /** char.ToLowerInvariant restricted to ASCII: `A`-`Z` map to `a`-`z`, everything else is kept. */
  function Lower(c: char): (r: char)
    ensures !('A' <= r <= 'Z')
    ensures ('a' <= r <= 'z') <==> ('a' <= c <= 'z' || 'A' <= c <= 'Z')
    ensures !('A' <= c <= 'Z') ==> r == c
  {
    if 'A' <= c <= 'Z' then (c as int + 32) as char else c
  }

  /** string.ToLowerInvariant restricted to ASCII. */
  function LowerAll(s: string): (r: string)
    ensures |r| == |s| && forall i :: 0 <= i < |s| ==> r[i] == Lower(s[i])
  {
    seq(|s|, i requires 0 <= i < |s| => Lower(s[i]))
  }

  /** A string that starts with `b` and then `c` is `b`, `c` and the rest. */
  lemma ExtendsSplit(b: string, c: char, x: string)
    requires |x| > |b| && x[..|b| + 1] == b + [c]
    ensures x == b + [c] + x[|b| + 1..]
  {
    assert x == x[..|b| + 1] + x[|b| + 1..];
  }

  /** A string that starts with `b` is `b`, its next character and the rest. */
  lemma ForkSplit(b: string, x: string)
    requires |x| > |b| && x[..|b|] == b
    ensures x == b + [x[|b|]] + x[|b| + 1..]
  {
    assert x == x[..|b|] + [x[|b|]] + x[|b| + 1..];
  }

  /** Dropping `k` elements and then one more drops `k + 1`; the first element left is `s[k]`. */
  lemma DropOne(s: string, k: nat)
    requires k < |s|
    ensures s[k..][0] == s[k] && s[k..][1..] == s[k + 1..]
  {
  }

  /** A string that starts with `b` and then has `c` starts with `b + [c]`. */
  lemma PrefixExtend(w: string, b: string, c: char)
    requires |w| > |b| && w[..|b|] == b && w[|b|] == c
    ensures w[..|b| + 1] == b + [c]
  {
    assert w[..|b| + 1] == w[..|b|] + [w[|b|]];
  }

  /** A non-empty prefix agrees on the first character and continues as a prefix of the rest. */
  lemma IsPrefixCons(p: string, s: string)
    requires p != [] && s != []
    ensures IsPrefix(p, s) <==> p[0] == s[0] && IsPrefix(p[1..], s[1..])
  {
    if |p| <= |s| {
      assert s[..|p|] == [s[0]] + s[1..][..|p| - 1];
      assert p == [p[0]] + p[1..];
    }
  }
}
