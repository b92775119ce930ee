/**
 The registration paths of exml.go: a path such as "a/b/c" is cut at every '/'
 by strings.Split, exactly as Go does it with a non-empty separator.
 */
module Paths {

  const SEPARATOR: char := '/'

  predicate IsSegment(s: string) {
    SEPARATOR !in s
  }

  /**
   strings.Split(path, "/"): the pieces between separators, in order. There is
   always at least one piece ("" splits to [""]), no piece holds a separator,
   and there is one piece more than there are separators.
   */
  function Split(path: string): (parts: seq<string>)
    ensures |parts| >= 1
    ensures forall k :: 0 <= k < |parts| ==> IsSegment(parts[k])
    ensures |parts| == Separators(path) + 1
  {
    if path == [] then [""]
    else
      var rest := Split(path[1..]);
      if path[0] == SEPARATOR then [""] + rest
      else [[path[0]] + rest[0]] + rest[1..]
  }

  /** How many separators a path holds. */
  function Separators(path: string): nat {
    if path == [] then 0
    else (if path[0] == SEPARATOR then 1 else 0) + Separators(path[1..])
  }

  /** strings.Join(parts, "/"), the inverse of Split. */
  function Join(parts: seq<string>): string
    requires |parts| >= 1
  {
    if |parts| == 1 then parts[0] else parts[0] + [SEPARATOR] + Join(parts[1..])
  }

  /** Splitting a path and joining the pieces gives the path back. */
  lemma {:induction false} JoinSplit(path: string)
    ensures Join(Split(path)) == path
  {
    if path != [] {
      var rest := Split(path[1..]);
      JoinSplit(path[1..]);
      if path[0] == SEPARATOR {
        assert Split(path) == [""] + rest;
        assert Join([""] + rest) == "" + [SEPARATOR] + Join(rest);
        assert path == [path[0]] + path[1..];
      } else {
        JoinConsFirst([path[0]], rest);
        assert path == [path[0]] + path[1..];
      }
    }
  }

  lemma {:induction false} JoinConsFirst(c: string, parts: seq<string>)
    requires |parts| >= 1
    ensures Join([c + parts[0]] + parts[1..]) == c + Join(parts)
  {
    var ps := [c + parts[0]] + parts[1..];
    if |parts| > 1 {
      assert ps[1..] == parts[1..];
    }
  }

  /** Joining separator-free pieces and splitting the result gives the pieces back. */
  lemma {:induction false} SplitJoin(parts: seq<string>)
    requires |parts| >= 1
    requires forall k :: 0 <= k < |parts| ==> IsSegment(parts[k])
    ensures Split(Join(parts)) == parts
  {
    if |parts| == 1 {
      SplitSegment(parts[0]);
    } else {
      SplitJoin(parts[1..]);
      SplitAfterSegment(parts[0], Join(parts[1..]));
      assert parts == [parts[0]] + parts[1..];
    }
  }

  /** A single segment splits to itself. */
  lemma {:induction false} SplitSegment(s: string)
    requires IsSegment(s)
    ensures Split(s) == [s]
  {
    if s != [] {
      SplitSegment(s[1..]);
      assert s == [s[0]] + s[1..];
    }
  }

  lemma {:induction false} SplitAfterSegment(s: string, tail: string)
    requires IsSegment(s)
    ensures Split(s + [SEPARATOR] + tail) == [s] + Split(tail)
  {
    var p := s + [SEPARATOR] + tail;
    if s == [] {
      assert p == [SEPARATOR] + tail;
      assert p[1..] == tail;
    } else {
      assert p[1..] == s[1..] + [SEPARATOR] + tail;
      SplitAfterSegment(s[1..], tail);
      assert [s[0]] + s[1..] == s;
    }
  }
}
