/**
  * Two matchers for `*` and `?`: easylogging's, which recurses at every star, and doctest's, which only ever
  * goes back to the last star. They decide the same relation.
  *
  * A C string is the sequence of its bytes before the terminating NUL; reading at its end reads the NUL.
  */
module Wildcard {
  import opened Basics
  import opened CStrings

  const STAR: byte := '*' as int
  const ANY: byte := '?' as int

  type CString = s: Bytes | 0 !in s

  // ---------- The relation ----------

  /** What easylogging's matcher decides, case by case. */
  predicate Matches(s: Bytes, p: Bytes)
    decreases |p|, |s|
  {
    if p == [] then s == []
    else if p[0] == ANY then s != [] && Matches(s[1..], p[1..])
    else if p[0] == STAR then Matches(s, p[1..]) || (s != [] && Matches(s[1..], p))
    else s != [] && s[0] == p[0] && Matches(s[1..], p[1..])
  }

  /** `Str::wildCardMatch` at positions of the two strings. */
  method WildCardMatchAt(str: CString, pattern: CString, s0: nat, p0: nat) returns (r: bool)
    requires s0 <= |str| && p0 <= |pattern|
    ensures r == Matches(str[s0..], pattern[p0..])
    decreases |pattern| - p0, |str| - s0
  {
    var s, p := s0, p0;
    while p < |pattern|
      invariant s0 <= s <= |str| && p0 <= p <= |pattern|
      invariant Matches(str[s0..], pattern[p0..]) == Matches(str[s..], pattern[p..])
      decreases |pattern| - p
    {
      Peel(pattern, p);
      if s < |str| {
        Peel(str, s);
      }
      if pattern[p] == ANY {
        if s == |str| {
          return false;
        }
        s := s + 1;
        p := p + 1;
      } else if pattern[p] == STAR {
        var rest := WildCardMatchAt(str, pattern, s, p + 1);
        if rest {
          return true;
        }
        if s < |str| {
          var longer := WildCardMatchAt(str, pattern, s + 1, p);
          if longer {
            return true;
          }
        }
        return false;
      } else {
        if s == |str| || str[s] != pattern[p] {
          return false;
        }
        s := s + 1;
        p := p + 1;
      }
    }
    r := s == |str|;
  }

  method WildCardMatch(str: CString, pattern: CString) returns (r: bool)
    ensures r == Matches(str, pattern)
  {
    assert str[0..] == str && pattern[0..] == pattern;
    r := WildCardMatchAt(str, pattern, 0, 0);
  }

  lemma Peel(s: Bytes, k: nat)
    requires k < |s|
    ensures s[k..] != [] && s[k..][0] == s[k] && s[k..][1..] == s[k + 1..]
  {
  }

  // ---------- Stars and the stretches between them ----------

  predicate Literal(p: Bytes) {
    forall k :: 0 <= k < |p| ==> p[k] != STAR
  }

  /** A stretch without stars against the front of s, character by character. */
  predicate Fits(s: Bytes, p: Bytes) {
    |p| <= |s| && forall k :: 0 <= k < |p| ==> p[k] == ANY || p[k] == s[k]
  }

  ghost predicate MatchesFrom(s: Bytes, start: nat, p: Bytes) {
    exists k :: start <= k <= |s| && Matches(s[k..], p)
  }

  lemma FitsPeel(s: Bytes, p: Bytes)
    requires s != [] && p != []
    ensures Fits(s, p) <==> (p[0] == ANY || p[0] == s[0]) && Fits(s[1..], p[1..])
  {
    assert forall k :: 0 <= k < |p| - 1 ==> p[1..][k] == p[k + 1];
    assert forall k :: 0 <= k < |s| - 1 ==> s[1..][k] == s[k + 1];
    assert forall k :: 1 <= k < |p| ==> p[k] == p[1..][k - 1];
  }

  lemma {:induction false} LiteralPrefix(s: Bytes, p: Bytes, q: Bytes)
    requires Literal(p)
    ensures Matches(s, p + q) <==> Fits(s, p) && Matches(s[|p|..], q)
    decreases |p|
  {
    if p == [] {
      assert p + q == q && s[0..] == s;
    } else {
      assert (p + q)[0] == p[0] && (p + q)[1..] == p[1..] + q;
      if s != [] {
        LiteralPrefix(s[1..], p[1..], q);
        FitsPeel(s, p);
        if Fits(s, p) {
          assert s[1..][|p| - 1..] == s[|p|..];
        }
      }
    }
  }

  lemma {:induction false} StarMatchesSuffix(s: Bytes, q: Bytes)
    ensures Matches(s, [STAR] + q) <==> MatchesFrom(s, 0, q)
    decreases |s|
  {
    assert ([STAR] + q)[1..] == q && s[0..] == s;
    if s != [] {
      StarMatchesSuffix(s[1..], q);
      assert forall k :: 1 <= k <= |s| ==> s[1..][k - 1..] == s[k..];
      if MatchesFrom(s[1..], 0, q) {
        var k :| 0 <= k <= |s[1..]| && Matches(s[1..][k..], q);
        assert s[1..][k..] == s[k + 1..];
      }
    }
  }

  lemma {:induction false} EmptyMatchesStars(p: Bytes)
    ensures Matches([], p) <==> forall k :: 0 <= k < |p| ==> p[k] == STAR
  {
    if p != [] {
      EmptyMatchesStars(p[1..]);
      assert forall k :: 1 <= k < |p| ==> p[k] == p[1..][k - 1];
    }
  }

  lemma MatchesFromStep(s: Bytes, start: nat, p: Bytes)
    requires start < |s|
    ensures MatchesFrom(s, start, p) <==> Matches(s[start..], p) || MatchesFrom(s, start + 1, p)
  {
  }

  /**
    * Why the last star is enough: once the stretch between two stars fits at its first possible place, any
    * later place leaves less of the string for the second star.
    */
  lemma FirstFitIsEnough(s: Bytes, start: nat, p: Bytes, q: Bytes)
    requires start <= |s| && Literal(p) && Fits(s[start..], p)
    ensures MatchesFrom(s, start, p + [STAR] + q) <==> MatchesFrom(s, start + |p|, q)
  {
    var whole := p + ([STAR] + q);
    assert whole == p + [STAR] + q;
    var here := start + |p|;
    assert s[start..][|p|..] == s[here..];
    if MatchesFrom(s, start, whole) {
      var k :| start <= k <= |s| && Matches(s[k..], whole);
      LiteralPrefix(s[k..], p, [STAR] + q);
      assert s[k..][|p|..] == s[k + |p|..];
      StarMatchesSuffix(s[k + |p|..], q);
      var j :| 0 <= j <= |s[k + |p|..]| && Matches(s[k + |p|..][j..], q);
      assert s[k + |p|..][j..] == s[k + |p| + j..];
    }
    if MatchesFrom(s, here, q) {
      var k :| here <= k <= |s| && Matches(s[k..], q);
      assert s[here..][k - here..] == s[k..];
      StarMatchesSuffix(s[here..], q);
      LiteralPrefix(s[start..], p, [STAR] + q);
    }
  }

  // ---------- doctest's matcher ----------

  /** The string as the comparison sees it. */
  function Fold(s: Bytes, caseSensitive: bool): (r: Bytes)
    ensures |r| == |s| && forall k :: 0 <= k < |s| ==> r[k] == if caseSensitive then s[k] else ToLower(s[k])
  {
    seq(|s|, k requires 0 <= k < |s| => if caseSensitive then s[k] else ToLower(s[k]))
  }

  /** The place after the last star and the attempt being made for the stretch that starts there. */
  datatype Attempt = NoStar | LastStar(mp: nat, cp: nat)

  /** What the main loop has established before looking at s[i] and p[w]. */
  ghost predicate Invariant(s: Bytes, p: Bytes, i: nat, w: nat, a: Attempt) {
    && i <= |s| && w <= |p|
    && match a
       case NoStar => (i < |s| ==> w < |p| && p[w] == STAR) && (Matches(s, p) <==> Matches(s[i..], p[w..]))
       case LastStar(mp, cp) =>
         && mp <= w && 1 <= cp && i == cp - 1 + (w - mp)
         && Literal(p[mp..w]) && Fits(s[cp - 1..], p[mp..w])
         && (Matches(s, p) <==> MatchesFrom(s, cp - 1, p[mp..]))
  }

  lemma SplitPattern(p: Bytes, mp: nat, w: nat)
    requires mp <= w <= |p|
    ensures p[mp..] == p[mp..w] + p[w..]
    ensures w < |p| ==> p[mp..] == p[mp..w] + [p[w]] + p[w + 1..] && p[mp..w + 1] == p[mp..w] + [p[w]]
  {
  }

  lemma AtStar(s: Bytes, p: Bytes, i: nat, w: nat, a: Attempt)
    requires Invariant(s, p, i, w, a) && i < |s| && w < |p| && p[w] == STAR
    ensures w + 1 == |p| ==> Matches(s, p)
    ensures w + 1 < |p| ==> Invariant(s, p, i, w + 1, LastStar(w + 1, i + 1))
    ensures w + 1 < |p| && a.LastStar? ==> a.mp <= w && a.cp <= i + 1
  {
    assert p[w..] == [STAR] + p[w + 1..];
    match a {
      case NoStar =>
        StarMatchesSuffix(s[i..], p[w + 1..]);
        ShiftMatchesFrom(s, i, p[w + 1..]);
      case LastStar(mp, cp) =>
        SplitPattern(p, mp, w);
        FirstFitIsEnough(s, cp - 1, p[mp..w], p[w + 1..]);
    }
    assert Matches(s, p) <==> MatchesFrom(s, i, p[w + 1..]);
    if w + 1 == |p| {
      assert Matches(s[|s|..], p[w + 1..]);
    }
  }

  lemma ShiftMatchesFrom(s: Bytes, i: nat, q: Bytes)
    requires i <= |s|
    ensures MatchesFrom(s[i..], 0, q) <==> MatchesFrom(s, i, q)
  {
    assert forall k :: 0 <= k <= |s| - i ==> s[i..][k..] == s[i + k..];
    if MatchesFrom(s, i, q) {
      var k :| i <= k <= |s| && Matches(s[k..], q);
      assert s[i..][k - i..] == s[k..];
    }
  }

  lemma AtCharacter(s: Bytes, p: Bytes, i: nat, w: nat, a: Attempt)
    requires Invariant(s, p, i, w, a) && i < |s| && w < |p| && p[w] != STAR && (p[w] == s[i] || p[w] == ANY)
    ensures Invariant(s, p, i + 1, w + 1, a)
  {
    var LastStar(mp, cp) := a;
    SplitPattern(p, mp, w);
    var front := s[cp - 1..];
    assert front[w - mp] == s[i];
  }

  lemma AtMismatch(s: Bytes, p: Bytes, i: nat, w: nat, a: Attempt)
    requires Invariant(s, p, i, w, a) && i < |s| && (w < |p| ==> p[w] != STAR && p[w] != s[i] && p[w] != ANY)
    ensures a.LastStar? && a.cp <= |s| && a.mp <= |p| && a.mp <= w
    ensures Invariant(s, p, a.cp, a.mp, LastStar(a.mp, a.cp + 1))
  {
    var LastStar(mp, cp) := a;
    SplitPattern(p, mp, w);
    LiteralPrefix(s[cp - 1..], p[mp..w], p[w..]);
    assert s[cp - 1..][w - mp..] == s[i..];
    assert !Matches(s[i..], p[w..]);
    MatchesFromStep(s, cp - 1, p[mp..]);
    assert p[mp..mp] == [];
  }

  lemma AtEnd(s: Bytes, p: Bytes, w: nat, a: Attempt)
    requires Invariant(s, p, |s|, w, a)
    ensures Matches(s, p) <==> forall k :: w <= k < |p| ==> p[k] == STAR
  {
    EmptyMatchesStars(p[w..]);
    assert forall k :: w <= k < |p| ==> p[k] == p[w..][k - w];
    assert s[|s|..] == [];
    match a {
      case NoStar =>
      case LastStar(mp, cp) =>
        SplitPattern(p, mp, w);
        OnlyThisAttempt(s, cp - 1, p[mp..w], p[w..]);
    }
  }

  /** With the string used up by the stretch, no later place is long enough for it. */
  lemma OnlyThisAttempt(s: Bytes, start: nat, stretch: Bytes, rest: Bytes)
    requires start + |stretch| == |s| && Literal(stretch) && Fits(s[start..], stretch)
    ensures MatchesFrom(s, start, stretch + rest) <==> Matches([], rest)
  {
    assert s[start..][|stretch|..] == [];
    LiteralPrefix(s[start..], stretch, rest);
    forall k | start < k <= |s|
      ensures !Matches(s[k..], stretch + rest)
    {
      LiteralPrefix(s[k..], stretch, rest);
    }
  }

  lemma AtFront(s: Bytes, p: Bytes, i: nat, w: nat)
    requires i < |s| && w <= |p| && (w < |p| ==> p[w] != STAR)
    ensures w < |p| && (p[w] == s[i] || p[w] == ANY) ==> Matches(s[i..], p[w..]) == Matches(s[i + 1..], p[w + 1..])
    ensures w == |p| || !(p[w] == s[i] || p[w] == ANY) ==> !Matches(s[i..], p[w..])
  {
    Peel(s, i);
    if w < |p| {
      Peel(p, w);
    }
  }

  predicate Same(a: byte, b: byte, caseSensitive: bool) {
    if caseSensitive then a == b else ToLower(a) == ToLower(b)
  }

  /** Folding keeps the two special characters apart from letters. */
  lemma FoldedCharacters(s: Bytes, p: Bytes, caseSensitive: bool)
    ensures forall k :: 0 <= k < |p| ==> (Fold(p, caseSensitive)[k] == STAR <==> p[k] == STAR)
    ensures forall k :: 0 <= k < |p| ==> (Fold(p, caseSensitive)[k] == ANY <==> p[k] == ANY)
    ensures forall i, k :: 0 <= i < |s| && 0 <= k < |p| ==>
      (Fold(s, caseSensitive)[i] == Fold(p, caseSensitive)[k] <==> Same(s[i], p[k], caseSensitive))
  {
  }

  /** `wildcmp`: 1 exactly when the recursive matcher accepts, up to the same folding of case. */
  method WildCmp(str: CString, wild: CString, caseSensitive: bool) returns (r: int)
    ensures r == 0 || r == 1
    ensures r == 1 <==> Matches(Fold(str, caseSensitive), Fold(wild, caseSensitive))
    ensures caseSensitive ==> (r == 1 <==> Matches(str, wild))
  {
    ghost var s, p := Fold(str, caseSensitive), Fold(wild, caseSensitive);
    FoldIdentity(str, caseSensitive);
    FoldIdentity(wild, caseSensitive);
    FoldedCharacters(str, wild, caseSensitive);
    hide Fold, Same, Matches, Invariant;
    var i: nat, w: nat := 0, 0;
    assert s[0..] == s && p[0..] == p;
    while i < |str| && !(w < |wild| && wild[w] == STAR)
      invariant i <= |str| && w <= |wild|
      invariant Matches(s, p) <==> Matches(s[i..], p[w..])
      decreases |str| - i
    {
      AtFront(s, p, i, w);
      if w == |wild| || (!Same(str[i], wild[w], caseSensitive) && wild[w] != ANY) {
        return 0;
      }
      i, w := i + 1, w + 1;
    }
    var a := NoStar;
    InvariantStart(s, p, i, w);
    while i < |str|
      invariant i <= |str| && w <= |wild| && Invariant(s, p, i, w, a)
      decreases |p| + 1 - (if a.NoStar? then 0 else a.mp), |s| - (if a.NoStar? then 0 else a.cp), |p| - w
    {
      if w < |wild| && wild[w] == STAR {
        AtStar(s, p, i, w, a);
        w := w + 1;
        if w == |wild| {
          return 1;
        }
        a := LastStar(w, i + 1);
      } else if w < |wild| && (Same(str[i], wild[w], caseSensitive) || wild[w] == ANY) {
        AtCharacter(s, p, i, w, a);
        i, w := i + 1, w + 1;
      } else {
        AtMismatch(s, p, i, w, a);
        i, w, a := a.cp, a.mp, LastStar(a.mp, a.cp + 1);
      }
    }
    AtEnd(s, p, w, a);
    ghost var w0 := w;
    while w < |wild| && wild[w] == STAR
      invariant w0 <= w <= |wild| && forall k :: w0 <= k < w ==> p[k] == STAR
    {
      w := w + 1;
    }
    r := if w == |wild| then 1 else 0;
  }

  lemma FoldIdentity(s: Bytes, caseSensitive: bool)
    ensures caseSensitive ==> Fold(s, caseSensitive) == s
  {
  }

  lemma InvariantStart(s: Bytes, p: Bytes, i: nat, w: nat)
    requires i <= |s| && w <= |p| && (i < |s| ==> w < |p| && p[w] == STAR)
    requires Matches(s, p) <==> Matches(s[i..], p[w..])
    ensures Invariant(s, p, i, w, NoStar)
  {
  }
}
