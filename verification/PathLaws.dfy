/**
  * What `abspath` does to every path, as equations: an empty segment or "." can be taken out anywhere, ".." with the
  * segment before it, and ".." with nothing or the root before it. No other function has these laws.
  */
module PathLaws {
  import opened Basics
  import opened Splitting
  import opened AbsPath

  /** "/" */
  const BAR: Bytes := [SLASH]

  predicate Proper(x: Bytes) {
    !Dotted(x) && Free(SLASH, x)
  }

  function LastOf(path: Bytes): Bytes {
    Last(Split(SLASH, path))
  }

  // ---------- The parts of a path in two halves ----------

  lemma {:induction false} JoinConcat(a: seq<Bytes>, b: seq<Bytes>)
    requires a != [] && b != []
    ensures Join(SLASH, a + b) == Join(SLASH, a) + BAR + Join(SLASH, b)
    decreases |a|
  {
    if |a| == 1 {
      assert (a + b)[1..] == b;
    } else {
      assert (a + b)[1..] == a[1..] + b;
      JoinConcat(a[1..], b);
    }
  }

  lemma SplitConcat(a: Bytes, b: Bytes)
    ensures Split(SLASH, a + BAR + b) == Split(SLASH, a) + Split(SLASH, b)
    ensures LastOf(a + BAR + b) == LastOf(b)
  {
    hide Split, Join;
    SplitProperties(SLASH, a);
    SplitProperties(SLASH, b);
    JoinConcat(Split(SLASH, a), Split(SLASH, b));
    SplitOfJoined(SLASH, Split(SLASH, a) + Split(SLASH, b));
  }

  lemma SplitOfOne(x: Bytes)
    requires Free(SLASH, x)
    ensures Split(SLASH, x) == [x]
  {
    SplitOfJoined(SLASH, [x]);
  }

  lemma {:induction false} PushAllConcat(stack: seq<Entry>, a: seq<Bytes>, b: seq<Bytes>)
    ensures PushAll(stack, a + b) == PushAll(PushAll(stack, a), b)
    decreases |a|
  {
    hide Push;
    if a == [] {
      assert a + b == b;
    } else {
      assert (a + b)[1..] == a[1..] + b;
      PushAllConcat(Push(stack, a[0]), a[1..], b);
    }
  }

  /** Segments that leave every stack as it was. */
  ghost predicate Neutral(segments: seq<Bytes>) {
    forall stack :: PushAll(stack, segments) == stack
  }

  lemma OneDottedIsNeutral(x: Bytes)
    requires x == [] || x == DOT
    ensures Neutral([x])
  {
    assert [x][1..] == [];
    assert forall stack: seq<Entry> :: PushAll(stack, [x]) == PushAll(stack, []);
  }

  /** A segment and the ".." after it. */
  lemma ProperAndDotsAreNeutral(x: Bytes)
    requires Proper(x)
    ensures Neutral([x, DOTS])
  {
    forall stack: seq<Entry>
      ensures PushAll(stack, [x, DOTS]) == stack
    {
      var pushed := stack + [Segment(x)];
      assert pushed[..|stack|] == stack;
      assert [x, DOTS][1..] == [DOTS] && [DOTS][1..] == [];
      assert PushAll(stack, [x, DOTS]) == PushAll(pushed, [DOTS]) == PushAll(stack, []);
    }
  }

  /** What is between two slashes can be taken out with one of them if it is neutral. */
  lemma NeutralIsTakenOut(a: Bytes, m: Bytes, b: Bytes)
    requires Neutral(Split(SLASH, m))
    ensures Normalised(a + BAR + m + BAR + b) == Normalised(a + BAR + b)
  {
    hide Split, PushAll, Dotted, Text;
    var path, short := a + BAR + m + BAR + b, a + BAR + b;
    SplitConcat(a, m);
    SplitConcat(a + BAR + m, b);
    SplitConcat(a, b);
    assert path[0] == short[0];
    var start, front, middle, back := Start(path), Split(SLASH, a), Split(SLASH, m), Split(SLASH, b);
    PushAllConcat(start, front, middle);
    PushAllConcat(start, front + middle, back);
    PushAllConcat(start, front, back);
  }

  // ---------- The laws ----------

  lemma EmptyIsTakenOut(a: Bytes, b: Bytes)
    ensures Normalised(a + BAR + BAR + b) == Normalised(a + BAR + b)
  {
    hide Normalised;
    OneDottedIsNeutral([]);
    SplitOfOne([]);
    NeutralIsTakenOut(a, [], b);
    assert a + BAR + [] + BAR + b == a + BAR + BAR + b;
  }

  lemma DotIsTakenOut(a: Bytes, b: Bytes)
    ensures Normalised(a + BAR + DOT + BAR + b) == Normalised(a + BAR + b)
  {
    hide Normalised;
    OneDottedIsNeutral(DOT);
    SplitOfOne(DOT);
    NeutralIsTakenOut(a, DOT, b);
  }

  /** ".." takes out the segment before it, and no other. */
  lemma DotsTakeOut(a: Bytes, x: Bytes, b: Bytes)
    requires Proper(x)
    ensures Normalised(a + BAR + x + BAR + DOTS + BAR + b) == Normalised(a + BAR + b)
  {
    hide Normalised, Split, PushAll;
    ProperAndDotsAreNeutral(x);
    SplitOfOne(x);
    SplitOfOne(DOTS);
    SplitConcat(x, DOTS);
    assert [x] + [DOTS] == [x, DOTS];
    NeutralIsTakenOut(a, x + BAR + DOTS, b);
    assert a + BAR + (x + BAR + DOTS) + BAR + b == a + BAR + x + BAR + DOTS + BAR + b;
  }

  /** A final "." or ".." stands for a directory, as does a final slash. */
  lemma FinalDots(path: Bytes)
    requires LastOf(path) in {DOT, DOTS}
    ensures Normalised(path) == Normalised(path + BAR)
  {
    hide Split, PushAll, Text;
    SplitConcat(path, []);
    SplitOfOne([]);
    assert path + BAR + [] == path + BAR;
    assert path != [] by {
      if path == [] {
        SplitOfOne(path);
      }
    }
    OneDottedIsNeutral([]);
    PushAllConcat(Start(path), Split(SLASH, path), [[]]);
  }

  /** What a relative path can begin with, to no effect; or an absolute one, to lose its root. */
  ghost predicate TakenAtStart(m: Bytes) {
    || m == DOT || m == DOTS
    || m == BAR + DOTS
    || exists x :: Proper(x) && m == x + BAR + DOTS
  }

  lemma StartVanishes(m: Bytes)
    requires TakenAtStart(m)
    ensures PushAll(Start(m), Split(SLASH, m)) == []
  {
    hide Split, PushAll;
    var none: seq<Entry> := [];
    if m == DOT || m == DOTS {
      SplitOfOne(m);
      OneDottedIsNeutral(DOT);
      PushOne(none, DOTS);
    } else if m == BAR + DOTS {
      SplitOfOne([]);
      SplitOfOne(DOTS);
      SplitConcat([], DOTS);
      assert [] + BAR + DOTS == m;
      OneDottedIsNeutral([]);
      PushAllConcat([Root], [[]], [DOTS]);
      PushOne([Root], DOTS);
    } else {
      var x :| Proper(x) && m == x + BAR + DOTS;
      SplitOfOne(x);
      SplitOfOne(DOTS);
      SplitConcat(x, DOTS);
      assert m[0] == x[0];
      ProperAndDotsAreNeutral(x);
      assert [x] + [DOTS] == [x, DOTS];
    }
  }

  lemma PushOne(stack: seq<Entry>, x: Bytes)
    ensures PushAll(stack, [x]) == Push(stack, x)
  {
    assert [x][1..] == [];
  }

  lemma StartIsTakenOut(m: Bytes, b: Bytes)
    requires TakenAtStart(m) && !Absolute(b)
    ensures Normalised(m + BAR + b) == Normalised(b)
  {
    hide Split, PushAll, Dotted, Text, TakenAtStart;
    StartVanishes(m);
    SplitConcat(m, b);
    assert m != [] by { NotEmpty(m); }
    assert (m + BAR + b)[0] == m[0];
    PushAllConcat(Start(m), Split(SLASH, m), Split(SLASH, b));
  }

  lemma NotEmpty(m: Bytes)
    requires TakenAtStart(m)
    ensures m != []
  {
  }

  lemma PathText()
    ensures Chars("/a") + BAR + Chars("b") + BAR + DOTS + BAR + Chars("c") == Chars("/a/b/../c")
    ensures Chars("/a") + BAR + Chars("c") == Chars("/a/c") && [] + BAR + Chars("a") == Chars("/a")
    ensures Proper(Chars("a")) && Proper(Chars("b")) && Proper(Chars("c"))
  {
    assert Chars("a")[0] == 97 && Chars("b")[0] == 98 && Chars("c")[0] == 99;
  }

  /** "/a/b/../c" becomes "/a/c". */
  lemma TheSegmentBeforeGoes()
    ensures Normalised(Chars("/a/b/../c")) == Chars("/a/c")
  {
    PathText();
    hide Chars, Split, Normalised, Dotted, Free;
    SplitOfOne([]);
    SplitOfOne(Chars("a"));
    SplitOfOne(Chars("c"));
    SplitConcat([], Chars("a"));
    SplitConcat(Chars("/a"), Chars("c"));
    DotsTakeOut(Chars("/a"), Chars("b"), Chars("c"));
    NormalIsFixed(Chars("/a/c"));
  }

  // ---------- No other function has them ----------

  ghost predicate HasTheLaws(f: Bytes -> Bytes) {
    && (forall p :: Normal(p) ==> f(p) == p)
    && f([]) == f(BAR)
    && (forall p :: LastOf(p) in {DOT, DOTS} ==> f(p) == f(p + BAR))
    && (forall a, b :: f(a + BAR + BAR + b) == f(a + BAR + b))
    && (forall a, b :: f(a + BAR + DOT + BAR + b) == f(a + BAR + b))
    && (forall a, x, b :: Proper(x) ==> f(a + BAR + x + BAR + DOTS + BAR + b) == f(a + BAR + b))
    && (forall m, b :: TakenAtStart(m) && !Absolute(b) ==> f(m + BAR + b) == f(b))
  }

  lemma NormalisedHasTheLaws()
    ensures HasTheLaws(Normalised)
  {
    hide Normalised, Normal, LastOf, TakenAtStart;
    forall p | Normal(p)
      ensures Normalised(p) == p
    {
      NormalIsFixed(p);
    }
    EmptyIsTheRoot();
    forall p | LastOf(p) in {DOT, DOTS}
      ensures Normalised(p) == Normalised(p + BAR)
    {
      FinalDots(p);
    }
    forall a: Bytes, b: Bytes
      ensures Normalised(a + BAR + BAR + b) == Normalised(a + BAR + b)
      ensures Normalised(a + BAR + DOT + BAR + b) == Normalised(a + BAR + b)
    {
      EmptyIsTakenOut(a, b);
      DotIsTakenOut(a, b);
    }
    forall a, x, b | Proper(x)
      ensures Normalised(a + BAR + x + BAR + DOTS + BAR + b) == Normalised(a + BAR + b)
    {
      DotsTakeOut(a, x, b);
    }
    forall m, b | TakenAtStart(m) && !Absolute(b)
      ensures Normalised(m + BAR + b) == Normalised(b)
    {
      StartIsTakenOut(m, b);
    }
  }

  lemma EmptyIsTheRoot()
    ensures Normalised([]) == BAR && Normalised(BAR) == BAR
  {
    SplitOfOne([]);
    SplitConcat([], []);
    assert [] + BAR + [] == BAR;
    hide Split, PushAll;
    PushOne([], []);
    var empty: Bytes := [];
    PushAllConcat([Root], [empty], [empty]);
    PushOne([Root], []);
  }

  /** Every law makes a path shorter, but that "." or ".." gets a slash. */
  function Measure(p: Bytes): nat {
    2 * |p| + if LastOf(p) in {DOT, DOTS} then 3 else 0
  }

  /** The segment, empty or dotted, is not where a normal path may have it. */
  predicate Spoils(segments: seq<Bytes>, k: nat)
    requires k < |segments|
  {
    Dotted(segments[k]) && !(segments[k] == [] && (k == 0 || k == |segments| - 1))
  }

  /** The path around segment k, which is neither the first nor the last. */
  lemma Around(p: Bytes, k: nat) returns (a: Bytes, x: Bytes, b: Bytes)
    requires 0 < k < |Split(SLASH, p)| - 1
    ensures p == a + BAR + x + BAR + b && x == Split(SLASH, p)[k]
    ensures Split(SLASH, a) == Split(SLASH, p)[..k] && Split(SLASH, b) == Split(SLASH, p)[k + 1..]
    ensures LastOf(b) == LastOf(p)
  {
    var s := Split(SLASH, p);
    SplitProperties(SLASH, p);
    hide Split, Join;
    a, x, b := Join(SLASH, s[..k]), s[k], Join(SLASH, s[k + 1..]);
    SplitOfJoined(SLASH, s[..k]);
    SplitOfJoined(SLASH, s[k + 1..]);
    JoinConcat([x], s[k + 1..]);
    JoinOfOne(x);
    JoinConcat(s[..k], [x] + s[k + 1..]);
    assert s == s[..k] + ([x] + s[k + 1..]);
  }

  /** The path after its first segment. */
  lemma AfterFirst(p: Bytes) returns (x: Bytes, b: Bytes)
    requires |Split(SLASH, p)| > 1
    ensures p == x + BAR + b && x == Split(SLASH, p)[0]
    ensures Split(SLASH, b) == Split(SLASH, p)[1..] && LastOf(b) == LastOf(p)
  {
    var s := Split(SLASH, p);
    SplitProperties(SLASH, p);
    hide Split, Join;
    x, b := s[0], Join(SLASH, s[1..]);
    SplitOfJoined(SLASH, s[1..]);
    JoinConcat([x], s[1..]);
    JoinOfOne(x);
    assert s == [x] + s[1..];
  }

  lemma AbsoluteSplit(b: Bytes)
    ensures Absolute(b) ==> |Split(SLASH, b)| > 1 && Split(SLASH, b)[0] == []
  {
    if Absolute(b) {
      SplitOfAbsolute(b);
    }
  }

  /** The two paths are the same to every function with the laws, and the second is simpler. */
  ghost predicate Simpler(p: Bytes, q: Bytes) {
    Measure(q) < Measure(p) && forall f :: HasTheLaws(f) ==> f(p) == f(q)
  }

  lemma WithoutEmpty(p: Bytes, k: nat) returns (q: Bytes)
    requires 0 < k < |Split(SLASH, p)| - 1 && Split(SLASH, p)[k] == []
    ensures Simpler(p, q)
  {
    hide Split;
    var a, x, b := Around(p, k);
    q := a + BAR + b;
    SplitConcat(a, b);
    assert p == a + BAR + BAR + b;
  }

  lemma WithoutDot(p: Bytes, k: nat) returns (q: Bytes)
    requires 0 < k < |Split(SLASH, p)| - 1 && Split(SLASH, p)[k] == DOT
    ensures Simpler(p, q)
  {
    hide Split;
    var a, x, b := Around(p, k);
    q := a + BAR + b;
    SplitConcat(a, b);
  }

  lemma WithoutPair(p: Bytes, k: nat) returns (q: Bytes)
    requires 1 < k < |Split(SLASH, p)| - 1 && Split(SLASH, p)[k] == DOTS && Proper(Split(SLASH, p)[k - 1])
    ensures Simpler(p, q)
  {
    hide Split, Proper;
    var a, x, rest := Around(p, k - 1);
    var dots, b := AfterFirst(rest);
    q := a + BAR + b;
    SplitConcat(a, b);
    assert p == a + BAR + x + BAR + DOTS + BAR + b;
  }

  lemma WithoutStart(p: Bytes, m: Bytes, b: Bytes)
    requires p == m + BAR + b && TakenAtStart(m) && !Absolute(b)
    ensures Simpler(p, b)
  {
    hide Split, TakenAtStart;
    SplitConcat(m, b);
  }

  lemma NotAbsolute(b: Bytes)
    requires |Split(SLASH, b)| == 1 || Split(SLASH, b)[0] != []
    ensures !Absolute(b)
  {
    hide Split;
    AbsoluteSplit(b);
  }

  /** A "." or ".." at segment k, and nothing spoilt before it. */
  lemma WithoutDots(p: Bytes, k: nat) returns (q: Bytes)
    requires k < |Split(SLASH, p)| - 1 && Split(SLASH, p)[k] in {DOT, DOTS}
    requires forall j :: 0 <= j < k ==> !Spoils(Split(SLASH, p), j)
    ensures Simpler(p, q)
  {
    hide Split, Simpler, HasTheLaws;
    var s := Split(SLASH, p);
    SplitProperties(SLASH, p);
    if k + 1 < |s| - 1 && s[k + 1] == [] {
      q := WithoutEmpty(p, k + 1);
    } else if k == 0 {
      var m, b := AfterFirst(p);
      NotAbsolute(b);
      WithoutStart(p, m, b);
      q := b;
    } else if s[k] == DOT {
      q := WithoutDot(p, k);
    } else if k == 1 {
      assert !Spoils(s, 0);
      var x, rest := AfterFirst(p);
      var dots, b := AfterFirst(rest);
      NotAbsolute(b);
      assert p == (x + BAR + DOTS) + BAR + b;
      PairAtStart(x);
      WithoutStart(p, x + BAR + DOTS, b);
      q := b;
    } else {
      assert !Spoils(s, k - 1);
      q := WithoutPair(p, k);
    }
  }

  lemma PairAtStart(x: Bytes)
    requires x == [] || Proper(x)
    ensures TakenAtStart(x + BAR + DOTS)
  {
    assert [] + BAR + DOTS == BAR + DOTS;
  }

  lemma WithSlash(p: Bytes)
    requires LastOf(p) in {DOT, DOTS}
    ensures Simpler(p, p + BAR)
  {
    hide Split;
    SplitConcat(p, []);
    SplitOfOne([]);
    assert p + BAR + [] == p + BAR;
  }

  /** Every path that is not normal is the same as a simpler one. */
  lemma Simplify(p: Bytes) returns (q: Bytes)
    requires p != [] && !Normal(p)
    ensures Simpler(p, q)
  {
    hide Split, Simpler, Dotted;
    var s := Split(SLASH, p);
    if LastOf(p) in {DOT, DOTS} {
      WithSlash(p);
      q := p + BAR;
    } else {
      var k := FirstSpoilt(p, 0);
      SpoiltIs(s, k);
      if s[k] == [] {
        q := WithoutEmpty(p, k);
      } else {
        q := WithoutDots(p, k);
      }
    }
  }

  lemma FirstSpoilt(p: Bytes, from: nat) returns (k: nat)
    requires p != [] && !Normal(p) && from <= |Split(SLASH, p)|
    requires forall j :: 0 <= j < from ==> !Spoils(Split(SLASH, p), j)
    ensures k < |Split(SLASH, p)| && Spoils(Split(SLASH, p), k)
    ensures forall j :: 0 <= j < k ==> !Spoils(Split(SLASH, p), j)
    decreases |Split(SLASH, p)| - from
  {
    hide Split, Dotted;
    var s := Split(SLASH, p);
    if from == |s| {
      forall j | 0 <= j < |s|
        ensures !Dotted(s[j]) || (s[j] == [] && (j == 0 || j == |s| - 1))
      {
        assert !Spoils(s, j);
      }
      assert false;
    } else if Spoils(s, from) {
      k := from;
    } else {
      k := FirstSpoilt(p, from + 1);
    }
  }

  lemma SpoiltIs(s: seq<Bytes>, k: nat)
    requires k < |s| && Spoils(s, k) && s[|s| - 1] !in {DOT, DOTS}
    ensures k < |s| - 1 && s[k] in {[], DOT, DOTS} && (s[k] == [] ==> k > 0)
  {
  }

  /** The laws say what becomes of every path: `abspath` is the one function that has them. */
  lemma {:induction false} LawsDecide(f: Bytes -> Bytes, p: Bytes)
    requires HasTheLaws(f)
    ensures f(p) == Normalised(p)
    decreases Measure(p)
  {
    hide Normalised, Normal, Measure;
    NormalisedHasTheLaws();
    if p == [] {
      EmptyIsTheRoot();
      RootIsNormal();
    } else if !Normal(p) {
      var q := Simplify(p);
      LawsDecide(f, q);
      assert Normalised(p) == Normalised(q);
    }
  }

  lemma RootIsNormal()
    ensures Normal(BAR)
  {
    hide Normalised, Normal;
    EmptyIsTheRoot();
    NormalisedIsNormal([]);
  }
}
