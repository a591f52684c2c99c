/** `Url::abspath`: removal of empty, "." and ".." segments with a buffer and the offsets of its segments. */
module AbsPath {
  import opened Basics
  import opened Splitting

  const SLASH: byte := 47
  const DOT: Bytes := [46]
  const DOTS: Bytes := [46, 46]

  // ---------- A stack of segments ----------

  /** The root is an entry like any other: ".." can remove it. */
  datatype Entry = Root | Segment(name: Bytes)

  function Name(e: Entry): Bytes {
    if e.Root? then [] else e.name
  }

  function Text(stack: seq<Entry>): Bytes
    decreases |stack|
  {
    if stack == [] then [] else Text(stack[..|stack| - 1]) + Name(stack[|stack| - 1]) + [SLASH]
  }

  /** Where the text of each entry starts. */
  function Starts(stack: seq<Entry>): (starts: seq<nat>)
    ensures |starts| == |stack|
    decreases |stack|
  {
    if stack == [] then [] else Starts(stack[..|stack| - 1]) + [|Text(stack[..|stack| - 1])|]
  }

  /** Segments that are never kept; as the last one they make the path a directory. */
  predicate Dotted(segment: Bytes) {
    segment == [] || segment == DOT || segment == DOTS
  }

  function Push(stack: seq<Entry>, segment: Bytes): seq<Entry> {
    if segment == DOTS then (if stack == [] then stack else stack[..|stack| - 1])
    else if Dotted(segment) then stack
    else stack + [Segment(segment)]
  }

  function PushAll(stack: seq<Entry>, segments: seq<Bytes>): seq<Entry>
    decreases |segments|
  {
    if segments == [] then stack else PushAll(Push(stack, segments[0]), segments[1..])
  }

  predicate Absolute(path: Bytes) {
    path != [] && path[0] == SLASH
  }

  function Start(path: Bytes): seq<Entry> {
    if Absolute(path) then [Root] else []
  }

  function Render(stack: seq<Entry>, directory: bool): Bytes {
    var t := Text(stack);
    if !directory && t != [] then t[..|t| - 1] else if directory && t == [] then [SLASH] else t
  }

  function Last(segments: seq<Bytes>): Bytes
    requires segments != []
  {
    segments[|segments| - 1]
  }

  function Resolved(path: Bytes): seq<Entry> {
    PushAll(Start(path), Split(SLASH, path))
  }

  function Normalised(path: Bytes): Bytes {
    Render(Resolved(path), Dotted(Last(Split(SLASH, path))))
  }

  // ---------- What the result looks like ----------

  /** Not empty; no ".", ".." or empty segment, but for the root and a trailing slash. */
  predicate Normal(path: Bytes) {
    && path != []
    && var segments := Split(SLASH, path);
       forall k :: 0 <= k < |segments| ==>
         !Dotted(segments[k]) || (segments[k] == [] && (k == 0 || k == |segments| - 1))
  }

  predicate WellFormed(stack: seq<Entry>) {
    forall k :: 0 <= k < |stack| ==>
      match stack[k]
      case Root => k == 0
      case Segment(name) => !Dotted(name) && Free(SLASH, name)
  }

  lemma {:induction false} PushAllKeepsWellFormed(stack: seq<Entry>, segments: seq<Bytes>)
    requires WellFormed(stack) && AllFree(SLASH, segments)
    ensures WellFormed(PushAll(stack, segments))
    decreases |segments|
  {
    if segments != [] {
      PushAllKeepsWellFormed(Push(stack, segments[0]), segments[1..]);
    }
  }

  function Names(stack: seq<Entry>): (names: seq<Bytes>)
    ensures |names| == |stack| && forall k :: 0 <= k < |stack| ==> names[k] == Name(stack[k])
  {
    seq(|stack|, k requires 0 <= k < |stack| => Name(stack[k]))
  }

  lemma {:induction false} JoinSnoc(parts: seq<Bytes>, last: Bytes)
    requires parts != []
    ensures Join(SLASH, parts + [last]) == Join(SLASH, parts) + [SLASH] + last
    decreases |parts|
  {
    if |parts| == 1 {
      assert (parts + [last])[1..] == [last];
    } else {
      assert (parts + [last])[1..] == parts[1..] + [last];
      JoinSnoc(parts[1..], last);
    }
  }

  /** The text of a stack is its names, each with a slash after it. */
  lemma {:induction false} TextIsJoin(stack: seq<Entry>)
    ensures Text(stack) == Join(SLASH, Names(stack) + [[]])
    ensures stack != [] ==> Text(stack) == Join(SLASH, Names(stack)) + [SLASH]
    decreases |stack|
  {
    if stack != [] {
      var front, last := stack[..|stack| - 1], stack[|stack| - 1];
      TextIsJoin(front);
      assert Names(stack) == Names(front) + [Name(last)];
      if front != [] {
        JoinSnoc(Names(front), Name(last));
      }
      JoinSnoc(Names(stack), []);
    }
  }

  /** A path whose segments are the names of a well-formed stack, with or without a trailing slash. */
  lemma RenderIsNormal(stack: seq<Entry>, directory: bool)
    requires WellFormed(stack) && (directory || (stack != [] && stack[|stack| - 1].Segment?))
    ensures Normal(Render(stack, directory))
  {
    TextIsJoin(stack);
    if directory && stack == [] {
      var nothing: Bytes := [];
      SplitOfJoined(SLASH, [nothing, nothing]);
      assert Join(SLASH, [nothing, nothing]) == [SLASH];
    } else {
      var parts := if directory then Names(stack) + [[]] else Names(stack);
      assert Render(stack, directory) == Join(SLASH, parts);
      SplitOfJoined(SLASH, parts);
      if !directory && |stack| == 1 {
        assert Join(SLASH, parts) == stack[0].name;
      }
    }
  }

  lemma {:induction false} LastIsPushed(stack: seq<Entry>, segments: seq<Bytes>)
    requires segments != [] && !Dotted(Last(segments))
    ensures
      var resolved := PushAll(stack, segments);
      resolved != [] && resolved[|resolved| - 1] == Segment(Last(segments))
    decreases |segments|
  {
    if |segments| > 1 {
      LastIsPushed(Push(stack, segments[0]), segments[1..]);
    }
  }

  lemma NormalisedIsNormal(path: Bytes)
    ensures Normal(Normalised(path))
  {
    hide Normal, Render, PushAll, Split;
    var segments := Split(SLASH, path);
    SplitProperties(SLASH, path);
    PushAllKeepsWellFormed(Start(path), segments);
    if !Dotted(Last(segments)) {
      LastIsPushed(Start(path), segments);
    }
    RenderIsNormal(Resolved(path), Dotted(Last(segments)));
  }

  // ---------- Normal paths stay as they are ----------

  function Segments(names: seq<Bytes>): (stack: seq<Entry>)
    ensures |stack| == |names| && forall k :: 0 <= k < |names| ==> stack[k] == Segment(names[k])
  {
    seq(|names|, k requires 0 <= k < |names| => Segment(names[k]))
  }

  lemma {:induction false} PushProper(stack: seq<Entry>, names: seq<Bytes>, trailing: seq<Bytes>)
    requires forall k :: 0 <= k < |names| ==> !Dotted(names[k])
    requires trailing == [] || trailing == [[]]
    ensures PushAll(stack, names + trailing) == stack + Segments(names)
    decreases |names|
  {
    if names == [] {
      assert names + trailing == trailing;
      assert trailing != [] ==> trailing[1..] == [];
    } else {
      assert (names + trailing)[1..] == names[1..] + trailing;
      PushProper(stack + [Segment(names[0])], names[1..], trailing);
      assert stack + [Segment(names[0])] + Segments(names[1..]) == stack + Segments(names);
    }
  }

  /** The leading empty segment of an absolute path is the root entry. */
  lemma SplitOfAbsolute(path: Bytes)
    requires Absolute(path)
    ensures Split(SLASH, path)[0] == [] && |Split(SLASH, path)| >= 2
  {
  }

  lemma SplitOfRelative(path: Bytes)
    requires path != [] && !Absolute(path)
    ensures Split(SLASH, path)[0] != []
  {
  }

  lemma NormalIsFixed(path: Bytes)
    requires Normal(path)
    ensures Normalised(path) == path
  {
    hide Split, Join, Dotted;
    var segments := Split(SLASH, path);
    SplitProperties(SLASH, path);
    if Absolute(path) {
      SplitOfAbsolute(path);
      assert Names([Root]) + segments[1..] == segments;
      NormalTail(path, [Root], segments[1..]);
      RootFirst(segments);
    } else {
      SplitOfRelative(path);
      assert Names([]) + segments == segments;
      NormalTail(path, [], segments);
    }
  }

  lemma RootFirst(segments: seq<Bytes>)
    requires segments != [] && segments[0] == []
    ensures PushAll([Root], segments) == PushAll([Root], segments[1..])
  {
  }

  /** The segments after the root, if there is one, give the path back. */
  lemma NormalTail(path: Bytes, start: seq<Entry>, tail: seq<Bytes>)
    requires path != [] && tail != [] && Join(SLASH, Names(start) + tail) == path
    requires forall k :: 0 <= k < |tail| ==> !Dotted(tail[k]) || (tail[k] == [] && k == |tail| - 1)
    ensures Render(PushAll(start, tail), Dotted(Last(tail))) == path
  {
    hide Join, PushAll, Names, Segments, Text;
    var directory := Dotted(Last(tail));
    var names := if directory then tail[..|tail| - 1] else tail;
    var trailing: seq<Bytes> := if directory then [[]] else [];
    assert tail == names + trailing;
    PushProper(start, names, trailing);
    var stack := start + Segments(names);
    assert Names(stack) == Names(start) + names;
    hide Dotted, Last;
    assert Names(stack) + trailing == Names(start) + tail;
    RenderNames(stack, directory);
  }

  lemma RenderNames(stack: seq<Entry>, directory: bool)
    requires directory || stack != []
    requires Join(SLASH, Names(stack) + if directory then [[]] else []) != []
    ensures Render(stack, directory) == Join(SLASH, Names(stack) + if directory then [[]] else [])
  {
    hide Join, Names;
    TextIsJoin(stack);
    JoinOfOne([]);
    if !directory {
      assert Names(stack) + [] == Names(stack);
    }
    assert stack == [] ==> Names(stack) + [[]] == [[]];
  }

  lemma JoinOfOne(s: Bytes)
    ensures Join(SLASH, [s]) == s
  {
  }

  /** `abspath` changes exactly the paths that are not normal; so doing it twice changes no more. */
  lemma FixedPointIffNormal(path: Bytes)
    ensures Normalised(path) == path <==> Normal(path)
    ensures Normalised(Normalised(path)) == Normalised(path)
  {
    hide Normal, Normalised;
    NormalisedIsNormal(path);
    NormalIsFixed(Normalised(path));
    if Normal(path) {
      NormalIsFixed(path);
    }
  }

  // ---------- Climbing above the root ----------

  /** How far below its start a path is after these segments; negative above it. */
  function Depth(segments: seq<Bytes>): int
    decreases |segments|
  {
    if segments == [] then 0
    else
      Depth(segments[..|segments| - 1])
      + if Last(segments) == DOTS then -1 else if Dotted(Last(segments)) then 0 else 1
  }

  predicate StaysBelowRoot(segments: seq<Bytes>) {
    forall k :: 0 <= k <= |segments| ==> Depth(segments[..k]) >= 0
  }

  lemma {:induction false} PushAllSnoc(stack: seq<Entry>, segments: seq<Bytes>, last: Bytes)
    ensures PushAll(stack, segments + [last]) == Push(PushAll(stack, segments), last)
    decreases |segments|
  {
    if segments == [] {
      assert (segments + [last])[1..] == [];
    } else {
      assert (segments + [last])[1..] == segments[1..] + [last];
      PushAllSnoc(Push(stack, segments[0]), segments[1..], last);
    }
  }

  /** The root entry is there exactly as long as no ".." has climbed above it. */
  lemma {:induction false} RootIsKeptIff(segments: seq<Bytes>)
    ensures
      var stack := PushAll([Root], segments);
      if StaysBelowRoot(segments) then stack != [] && stack[0] == Root && |stack| == 1 + Depth(segments)
      else forall k :: 0 <= k < |stack| ==> stack[k] != Root
    decreases |segments|
  {
    if segments == [] {
      assert PushAll([Root], segments) == [Root];
    } else {
      var front, last := segments[..|segments| - 1], Last(segments);
      RootIsKeptIff(front);
      assert segments == front + [last];
      PushAllSnoc([Root], front, last);
      StaysBelowSnoc(segments);
    }
  }

  /** The lowest depth on the way; the start itself counts as 0. */
  function Lowest(segments: seq<Bytes>): (low: int)
    ensures low <= 0 && low <= Depth(segments)
    decreases |segments|
  {
    if segments == [] then 0
    else
      var low := Lowest(segments[..|segments| - 1]);
      if Depth(segments) < low then Depth(segments) else low
  }

  /** The number of entries: a walk of the depths that starts at 1 and cannot go below 0. */
  lemma {:induction false} StackSize(segments: seq<Bytes>)
    ensures |PushAll([Root], segments)|
            == 1 + Depth(segments) - if Lowest(segments) < -1 then 1 + Lowest(segments) else 0
    decreases |segments|
  {
    if segments == [] {
      assert PushAll([Root], segments) == [Root];
    } else {
      var front, last := segments[..|segments| - 1], Last(segments);
      StackSize(front);
      assert segments == front + [last];
      PushAllSnoc([Root], front, last);
    }
  }

  /** The end is no deeper than any point before it. */
  predicate EndsLowest(segments: seq<Bytes>) {
    forall k :: 0 <= k <= |segments| ==> Depth(segments) <= Depth(segments[..k])
  }

  /** The path ends above its root, at the highest point it has climbed to. */
  predicate EndsAtItsHighest(segments: seq<Bytes>) {
    Depth(segments) < 0 && EndsLowest(segments)
  }

  lemma {:induction false} LowestIsLeast(segments: seq<Bytes>)
    ensures forall k :: 0 <= k <= |segments| ==> Lowest(segments) <= Depth(segments[..k])
    ensures exists k :: 0 <= k <= |segments| && Lowest(segments) == Depth(segments[..k])
    decreases |segments|
  {
    assert segments[..|segments|] == segments;
    if segments == [] {
      assert Lowest(segments) == Depth(segments[..0]);
    } else {
      var front := segments[..|segments| - 1];
      LowestIsLeast(front);
      assert forall k :: 0 <= k <= |front| ==> front[..k] == segments[..k];
      if Lowest(segments) == Depth(segments) {
        assert Lowest(segments) == Depth(segments[..|segments|]);
      }
    }
  }

  /** All entries are gone exactly then. */
  lemma NothingLeftIff(segments: seq<Bytes>)
    ensures PushAll([Root], segments) == [] <==> EndsAtItsHighest(segments)
  {
    hide Depth, Lowest;
    StackSize(segments);
    LowestIsLeast(segments);
  }

  lemma StaysBelowSnoc(segments: seq<Bytes>)
    requires segments != []
    ensures StaysBelowRoot(segments) <==> StaysBelowRoot(segments[..|segments| - 1]) && Depth(segments) >= 0
  {
    hide Depth;
    var front := segments[..|segments| - 1];
    assert segments[..|segments|] == segments;
    forall k | 0 <= k <= |front|
      ensures segments[..k] == front[..k]
    {
    }
    if StaysBelowRoot(segments) {
      forall k | 0 <= k <= |front|
        ensures Depth(front[..k]) >= 0
      {
        assert Depth(segments[..k]) >= 0;
      }
    }
    if StaysBelowRoot(front) && Depth(segments) >= 0 {
      forall k | 0 <= k <= |segments|
        ensures Depth(segments[..k]) >= 0
      {
        if k <= |front| {
          assert Depth(front[..k]) >= 0;
        }
      }
    }
  }

  lemma {:induction false} TextStart(stack: seq<Entry>)
    requires stack != []
    ensures Name(stack[0]) + [SLASH] <= Text(stack)
    decreases |stack|
  {
    if |stack| > 1 {
      TextStart(stack[..|stack| - 1]);
    }
  }

  /**
    * An absolute path stays absolute if and only if it never climbs above its root, or ends with a dotted segment
    * at the highest point it has climbed to, as the "/" of an empty directory.
    */
  lemma AbsoluteStaysAbsoluteIff(path: Bytes)
    requires Absolute(path)
    ensures
      var segments := Split(SLASH, path);
      Absolute(Normalised(path))
      <==> StaysBelowRoot(segments) || (EndsAtItsHighest(segments) && Dotted(Last(segments)))
  {
    hide Split, PushAll, StaysBelowRoot, EndsAtItsHighest, Text, Dotted;
    var segments := Split(SLASH, path);
    var stack := Resolved(path);
    SplitProperties(SLASH, path);
    RootIsKeptIff(segments);
    NothingLeftIff(segments);
    AbsoluteStartIsWellFormed();
    PushAllKeepsWellFormed([Root], segments);
    if !Dotted(Last(segments)) {
      LastIsPushed([Root], segments);
    }
    if stack != [] {
      TextStart(stack);
      FirstOfText(stack, Dotted(Last(segments)));
    } else {
      assert Text(stack) == [] by {
        EmptyText();
      }
    }
  }

  /** The number of entries of a relative path. */
  lemma {:induction false} RelativeStackSize(segments: seq<Bytes>)
    ensures |PushAll([], segments)| == Depth(segments) - Lowest(segments)
    decreases |segments|
  {
    if segments != [] {
      var front, last := segments[..|segments| - 1], Last(segments);
      RelativeStackSize(front);
      assert segments == front + [last];
      PushAllSnoc([], front, last);
    }
  }

  lemma NothingLeftOfRelativeIff(segments: seq<Bytes>)
    ensures PushAll([], segments) == [] <==> EndsLowest(segments)
  {
    hide Depth, Lowest;
    RelativeStackSize(segments);
    LowestIsLeast(segments);
  }

  /**
    * A relative path becomes absolute, as the "/" of an empty directory, if and only if it ends with a dotted segment
    * no deeper than it has been before.
    */
  lemma RelativeBecomesAbsoluteIff(path: Bytes)
    requires !Absolute(path)
    ensures
      var segments := Split(SLASH, path);
      Absolute(Normalised(path)) <==> EndsLowest(segments) && Dotted(Last(segments))
  {
    hide Split, PushAll, EndsLowest, Text, Dotted;
    var segments := Split(SLASH, path);
    var stack := Resolved(path);
    SplitProperties(SLASH, path);
    NothingLeftOfRelativeIff(segments);
    EmptyIsWellFormed();
    PushAllKeepsWellFormed([], segments);
    RelativeHasNoRoot([], segments);
    if !Dotted(Last(segments)) {
      LastIsPushed([], segments);
    }
    if stack != [] {
      FirstOfText(stack, Dotted(Last(segments)));
    } else {
      EmptyText();
    }
  }

  lemma EmptyIsWellFormed()
    ensures WellFormed([])
  {
  }

  lemma {:induction false} RelativeHasNoRoot(stack: seq<Entry>, segments: seq<Bytes>)
    requires Root !in stack
    ensures Root !in PushAll(stack, segments)
    decreases |segments|
  {
    if segments != [] {
      RelativeHasNoRoot(Push(stack, segments[0]), segments[1..]);
    }
  }

  lemma EmptyText()
    ensures Text([]) == []
  {
  }

  lemma AbsoluteStartIsWellFormed()
    ensures WellFormed([Root])
  {
  }

  lemma FirstOfText(stack: seq<Entry>, directory: bool)
    requires stack != [] && WellFormed(stack) && (directory || stack[|stack| - 1].Segment?)
    ensures Absolute(Render(stack, directory)) <==> stack[0] == Root
  {
    TextStart(stack);
    if !directory && |stack| > 1 {
      TextStart(stack[..|stack| - 1]);
    }
  }

  /** "/../a" becomes "a". */
  lemma RootCanBeRemoved()
    ensures Normalised([SLASH] + DOTS + [SLASH, 97]) == [97]
  {
    var path := [SLASH] + DOTS + [SLASH, 97];
    var parts: seq<Bytes> := [[], DOTS, [97]];
    assert parts[1..] == [DOTS, [97]] && parts[1..][1..] == [[97]];
    SplitOfJoined(SLASH, parts);
    assert Join(SLASH, parts[1..][1..]) == [97];
    assert Join(SLASH, parts[1..]) == DOTS + [SLASH] + [97];
    assert Join(SLASH, parts) == path;
    hide Split, Join;
    var one: seq<Entry> := [Segment([97])];
    var none: seq<Entry> := [];
    assert none + one == one && one[..0] == none;
    assert Push([Root], DOTS) == none;
    var tail: seq<Bytes> := [[97]];
    assert tail[1..] == [];
    assert PushAll(none, tail) == PushAll(one, []);
    assert PushAll([Root], parts) == PushAll(none, tail);
    assert Text(one) == [97, SLASH];
  }

  // ---------- The code ----------

  lemma TextOfPush(stack: seq<Entry>, e: Entry)
    ensures Text(stack + [e]) == Text(stack) + Name(e) + [SLASH]
    ensures Starts(stack + [e]) == Starts(stack) + [|Text(stack)|]
  {
    assert (stack + [e])[..|stack|] == stack;
  }

  /** Removing the last entry is cutting the text where that entry starts. */
  lemma TextOfPop(stack: seq<Entry>)
    requires stack != []
    ensures
      var front, starts := stack[..|stack| - 1], Starts(stack);
      && starts[|stack| - 1] <= |Text(stack)|
      && Text(stack)[..starts[|stack| - 1]] == Text(front)
      && starts[..|stack| - 1] == Starts(front)
  {
  }

  /** Every recorded offset is in the buffer, at its start or after a slash. */
  lemma {:induction false} StartsAreSegmentStarts(stack: seq<Entry>)
    ensures
      forall k :: 0 <= k < |stack| ==>
        Starts(stack)[k] < |Text(stack)| && (Starts(stack)[k] == 0 || Text(stack)[Starts(stack)[k] - 1] == SLASH)
    decreases |stack|
  {
    if stack != [] {
      var front := stack[..|stack| - 1];
      StartsAreSegmentStarts(front);
      if front != [] {
        assert Text(front)[|Text(front)| - 1] == SLASH;
      }
    }
  }

  /** The end of `abspath`: the segment after the last slash, and whether a slash ends the result. */
  method AddLastSegment(path: Bytes, previous: nat, copy0: Bytes, starts: seq<nat>, ghost stack: seq<Entry>)
    returns (copy: Bytes)
    requires previous <= |path| && copy0 == Text(stack) && starts == Starts(stack)
    ensures copy == Render(Push(stack, path[previous..|path|]), Dotted(path[previous..|path|]))
  {
    hide Text, Starts, DOT, DOTS;
    EmptyText();
    var index := |path|;
    var directory;
    copy := copy0;
    ghost var last := path[previous..index];
    SegmentKind(path, previous, index);
    if previous == |path| {
      directory := true;
    } else if index - previous == 1 && path[previous] == 46 {
      directory := true;
    } else if index - previous == 2 && path[previous] == 46 && path[previous + 1] == 46 {
      if starts != [] {
        TextOfPop(stack);
        copy := copy[..starts[|starts| - 1]];
      }
      directory := true;
    } else {
      TextOfPush(stack, Segment(last));
      copy := copy + path[previous..index];
      copy := copy + [SLASH];
      directory := false;
    }
    if !directory && |copy| >= 1 {
      copy := copy[..|copy| - 1];
    } else if directory && copy == [] {
      copy := copy + [SLASH];
    }
  }

  method Normalise(path: Bytes) returns (copy: Bytes)
    ensures copy == Normalised(path)
  {
    hide Split, PushAll, Text, Starts, Find, DOT, DOTS;
    copy := [];
    var starts: seq<nat> := [];
    ghost var stack := Start(path);
    EmptyText();
    TextOfPush([], Root);
    assert [] + [Root] == [Root];
    if path != [] && path[0] == SLASH {
      copy := copy + [SLASH];
      starts := starts + [0];
    }
    var directory := false;
    var previous := 0;
    var index := Find(SLASH, path, 0);
    assert path[previous..] == path;
    while index < |path|
      invariant previous <= index <= |path| && index == Find(SLASH, path, previous)
      invariant copy == Text(stack) && starts == Starts(stack)
      invariant PushAll(stack, Split(SLASH, path[previous..])) == Resolved(path)
      invariant Last(Split(SLASH, path[previous..])) == Last(Split(SLASH, path))
    {
      NextSegment(stack, path, previous, index);
      SegmentKind(path, previous, index);
      ghost var segment := path[previous..index];
      if index - previous == 0 {
      } else if index - previous == 2 && path[previous] == 46 && path[previous + 1] == 46 {
        if starts != [] {
          TextOfPop(stack);
          copy := copy[..starts[|starts| - 1]];
          starts := starts[..|starts| - 1];
        }
        directory := true;
      } else if index - previous == 1 && path[previous] == 46 {
        directory := true;
      } else {
        TextOfPush(stack, Segment(segment));
        starts := starts + [|copy|];
        copy := copy + path[previous..index];
        copy := copy + [SLASH];
        directory := false;
      }
      stack := Push(stack, segment);
      previous := index + 1;
      index := Find(SLASH, path, index + 1);
    }
    LastSegment(stack, path, previous);
    copy := AddLastSegment(path, previous, copy, starts, stack);
  }

  lemma SegmentKind(path: Bytes, from: nat, to: nat)
    requires from <= to <= |path|
    ensures path[from..to] == [] <==> from == to
    ensures path[from..to] == DOTS <==> to - from == 2 && path[from] == 46 && path[from + 1] == 46
    ensures path[from..to] == DOT <==> to - from == 1 && path[from] == 46
  {
  }

  lemma NextSegment(stack: seq<Entry>, path: Bytes, previous: nat, index: nat)
    requires previous <= index < |path| && index == Find(SLASH, path, previous)
    ensures PushAll(stack, Split(SLASH, path[previous..]))
            == PushAll(Push(stack, path[previous..index]), Split(SLASH, path[index + 1..]))
    ensures Last(Split(SLASH, path[previous..])) == Last(Split(SLASH, path[index + 1..]))
  {
    hide Split, Find;
    SplitFrom(SLASH, path, previous, index);
    assert Split(SLASH, path[previous..])[1..] == Split(SLASH, path[index + 1..]);
  }

  lemma LastSegment(stack: seq<Entry>, path: Bytes, previous: nat)
    requires previous <= |path| && Find(SLASH, path, previous) == |path|
    ensures PushAll(stack, Split(SLASH, path[previous..])) == Push(stack, path[previous..|path|])
    ensures Last(Split(SLASH, path[previous..])) == path[previous..|path|]
  {
    hide Split, Find;
    SplitFrom(SLASH, path, previous, |path|);
    assert path[previous..] == path[previous..|path|];
  }
}
