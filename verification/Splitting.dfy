/** Strings as parts between separators: the labels of a hostname, the segments of a path. */
module Splitting {
  import opened Basics

  /** `s.find(sep, start)`, with the length for npos. */
  function Find(sep: byte, s: Bytes, start: nat): (k: nat)
    requires start <= |s|
    ensures start <= k <= |s| && (k < |s| ==> s[k] == sep)
    ensures forall j :: start <= j < k ==> s[j] != sep
    decreases |s| - start
  {
    if start == |s| || s[start] == sep then start else Find(sep, s, start + 1)
  }

  function Split(sep: byte, s: Bytes): (parts: seq<Bytes>)
    ensures |parts| > 0
    decreases |s|
  {
    var k := Find(sep, s, 0);
    if k == |s| then [s] else [s[..k]] + Split(sep, s[k + 1..])
  }

  function Join(sep: byte, parts: seq<Bytes>): Bytes
    requires |parts| > 0
    decreases |parts|
  {
    if |parts| == 1 then parts[0] else parts[0] + [sep] + Join(sep, parts[1..])
  }

  predicate Free(sep: byte, s: Bytes) {
    forall k :: 0 <= k < |s| ==> s[k] != sep
  }

  predicate AllFree(sep: byte, parts: seq<Bytes>) {
    forall k :: 0 <= k < |parts| ==> Free(sep, parts[k])
  }

  lemma {:induction false} SplitProperties(sep: byte, s: Bytes)
    ensures Join(sep, Split(sep, s)) == s && AllFree(sep, Split(sep, s))
    decreases |s|
  {
    var k := Find(sep, s, 0);
    if k < |s| {
      SplitProperties(sep, s[k + 1..]);
      assert s == s[..k] + [sep] + s[k + 1..];
      assert Split(sep, s)[1..] == Split(sep, s[k + 1..]);
    }
  }

  /** The boundaries survive a join of parts without separators. */
  lemma {:induction false} SplitOfJoined(sep: byte, parts: seq<Bytes>)
    requires |parts| > 0 && AllFree(sep, parts)
    ensures Split(sep, Join(sep, parts)) == parts
    decreases |parts|
  {
    var s := Join(sep, parts);
    var first := parts[0];
    if |parts| == 1 {
      assert Find(sep, s, 0) == |s|;
    } else {
      SplitOfJoined(sep, parts[1..]);
      assert s[|first|] == sep;
      assert forall j :: 0 <= j < |first| ==> s[j] == first[j];
      assert Find(sep, s, 0) == |first|;
      assert s[..|first|] == first && s[|first| + 1..] == Join(sep, parts[1..]);
      assert [first] + parts[1..] == parts;
    }
  }

  lemma FindShift(sep: byte, s: Bytes, start: nat)
    requires start <= |s|
    ensures Find(sep, s, start) == start + Find(sep, s[start..], 0)
  {
    var k := Find(sep, s[start..], 0);
    assert forall j :: 0 <= j < k ==> s[start..][j] == s[start + j];
    if k < |s| - start {
      assert s[start..][k] == s[start + k];
    }
  }

  /** The parts from `start`: the one up to the next separator, and those after it. */
  lemma SplitFrom(sep: byte, s: Bytes, start: nat, end: nat)
    requires start <= |s| && end == Find(sep, s, start)
    ensures Split(sep, s[start..]) == if end == |s| then [s[start..]] else [s[start..end]] + Split(sep, s[end + 1..])
  {
    FindShift(sep, s, start);
    var t := s[start..];
    assert Split(sep, t) == if end == |s| then [t] else [t[..end - start]] + Split(sep, t[end - start + 1..]);
    hide Find, Split;
    if end < |s| {
      assert t[..end - start] == s[start..end];
      assert t[end - start + 1..] == s[end + 1..];
    }
  }
}
