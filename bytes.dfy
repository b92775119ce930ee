/**
 Bytes and the whitespace trimming that exml.go applies, through bytes.TrimSpace,
 to the character data it has buffered before handing it to a text callback.
 Only the six ASCII whitespace bytes are recognised (see README).
 */
module Bytes {

  newtype byte = x: int | 0 <= x < 256

  /** The bytes bytes.TrimSpace treats as white space in its ASCII fast path. */
  predicate IsSpace(b: byte) {
    b == 9 || b == 10 || b == 11 || b == 12 || b == 13 || b == 32
  }

  predicate AllSpace(s: seq<byte>) {
    forall k :: 0 <= k < |s| ==> IsSpace(s[k])
  }

  /** Index of the first byte that is not white space (|s| when there is none). */
  function FirstNonSpace(s: seq<byte>): (i: nat)
    ensures i <= |s|
    ensures AllSpace(s[..i])
    ensures i < |s| ==> !IsSpace(s[i])
  {
    if s == [] || !IsSpace(s[0]) then 0
    else
      var i := 1 + FirstNonSpace(s[1..]);
      assert s[..i] == [s[0]] + s[1..][..i - 1];
      i
  }

  /** Index just past the last byte that is not white space (0 when there is none). */
  function EndOfNonSpace(s: seq<byte>): (j: nat)
    ensures j <= |s|
    ensures AllSpace(s[j..])
    ensures 0 < j ==> !IsSpace(s[j - 1])
  {
    if s == [] || !IsSpace(s[|s| - 1]) then |s|
    else
      var j := EndOfNonSpace(s[..|s| - 1]);
      assert s[j..] == s[..|s| - 1][j..] + [s[|s| - 1]];
      j
  }

  /**
   bytes.TrimSpace: the input with its leading and trailing white space cut off.
   It is empty exactly when the input is all white space, and otherwise neither
   starts nor ends with white space; TrimSpaceIsInnerSlice shows that it is
   the part of the input that only white space surrounds.
   */
  function TrimSpace(s: seq<byte>): (r: seq<byte>)
    ensures |r| <= |s|
    ensures r == [] <==> AllSpace(s)
    ensures r != [] ==> !IsSpace(r[0]) && !IsSpace(r[|r| - 1])
  {
    var i := FirstNonSpace(s);
    if i == |s| then
      assert s[..i] == s;
      []
    else
      var j := EndOfNonSpace(s);
      NonSpaceBounds(s, i);
      s[i..j]
  }

  /** What trimming keeps is a slice of the input with only white space around it. */
  lemma TrimSpaceIsInnerSlice(s: seq<byte>)
    ensures var r := TrimSpace(s);
      exists i :: 0 <= i <= |s| - |r| && s[i..i + |r|] == r && AllSpace(s[..i]) && AllSpace(s[i + |r|..])
  {
    var i := FirstNonSpace(s);
    if i == |s| {
      assert s[..i] == s && s[0..0] == [] && s[0..] == s;
      assert AllSpace(s[0..]);
    } else {
      var j := EndOfNonSpace(s);
      NonSpaceBounds(s, i);
      assert s[i..i + (j - i)] == TrimSpace(s);
    }
  }

  /** A byte that is not white space lies within the bounds trimming keeps. */
  lemma NonSpaceBounds(s: seq<byte>, k: nat)
    requires k < |s| && !IsSpace(s[k])
    ensures FirstNonSpace(s) <= k < EndOfNonSpace(s)
  {
    FirstNonSpaceAtMost(s, k);
    EndOfNonSpaceAbove(s, k);
  }

  lemma {:induction false} FirstNonSpaceAtMost(s: seq<byte>, k: nat)
    requires k < |s| && !IsSpace(s[k])
    ensures FirstNonSpace(s) <= k
    decreases k
  {
    if IsSpace(s[0]) {
      FirstNonSpaceAtMost(s[1..], k - 1);
    }
  }

  lemma {:induction false} EndOfNonSpaceAbove(s: seq<byte>, k: nat)
    requires k < |s| && !IsSpace(s[k])
    ensures k < EndOfNonSpace(s)
    decreases |s|
  {
    if IsSpace(s[|s| - 1]) {
      EndOfNonSpaceAbove(s[..|s| - 1], k);
    }
  }

  /** Trimming twice is trimming once. */
  lemma TrimSpaceIdempotent(s: seq<byte>)
    ensures TrimSpace(TrimSpace(s)) == TrimSpace(s)
  {
    var r := TrimSpace(s);
    if r != [] {
      assert FirstNonSpace(r) == 0;
      assert EndOfNonSpace(r) == |r|;
      assert r[0..|r|] == r;
    }
  }

  /** White space around a text does not change what it trims to. */
  lemma {:induction false} TrimSpaceIgnoresPadding(pre: seq<byte>, s: seq<byte>, post: seq<byte>)
    requires AllSpace(pre) && AllSpace(post)
    ensures TrimSpace(pre + s + post) == TrimSpace(s)
  {
    if AllSpace(s) {
      AllSpaceConcat(pre, s);
      AllSpaceConcat(pre + s, post);
    } else {
      TrimPaddedText(pre, s, post);
    }
  }

  lemma {:induction false} TrimPaddedText(pre: seq<byte>, s: seq<byte>, post: seq<byte>)
    requires AllSpace(pre) && AllSpace(post) && !AllSpace(s)
    ensures TrimSpace(pre + s + post) == TrimSpace(s)
  {
    var k :| 0 <= k < |s| && !IsSpace(s[k]);
    NonSpaceBounds(s, k);
    FirstNonSpacePadded(pre, s, post);
    EndOfNonSpacePadded(pre, s, post);
    SliceOfMiddle(pre, s, post, FirstNonSpace(s), EndOfNonSpace(s));
    TrimSpaceShifted(pre + s + post, s, |pre|);
  }

  /** t trims to what s trims to when s's kept part sits in t, d bytes further on. */
  lemma TrimSpaceShifted(t: seq<byte>, s: seq<byte>, d: nat)
    requires FirstNonSpace(s) < EndOfNonSpace(s) && d + EndOfNonSpace(s) <= |t|
    requires FirstNonSpace(t) == d + FirstNonSpace(s) && EndOfNonSpace(t) == d + EndOfNonSpace(s)
    requires t[d + FirstNonSpace(s)..d + EndOfNonSpace(s)] == s[FirstNonSpace(s)..EndOfNonSpace(s)]
    ensures TrimSpace(t) == TrimSpace(s)
  {
  }

  lemma FirstNonSpacePadded(pre: seq<byte>, s: seq<byte>, post: seq<byte>)
    requires AllSpace(pre) && !AllSpace(s)
    ensures FirstNonSpace(pre + s + post) == |pre| + FirstNonSpace(s)
  {
    assert pre + s + post == pre + (s + post);
    FirstNonSpaceAfterPadding(pre, s + post);
    FirstNonSpaceOfPrefix(s, post);
  }

  lemma EndOfNonSpacePadded(pre: seq<byte>, s: seq<byte>, post: seq<byte>)
    requires AllSpace(post) && !AllSpace(s)
    ensures EndOfNonSpace(pre + s + post) == |pre| + EndOfNonSpace(s)
  {
    EndOfNonSpaceBeforePadding(pre + s, post);
    EndOfNonSpaceOfSuffix(pre, s);
  }

  lemma SliceOfMiddle(pre: seq<byte>, s: seq<byte>, post: seq<byte>, i: nat, j: nat)
    requires i <= j <= |s|
    ensures (pre + s + post)[|pre| + i..|pre| + j] == s[i..j]
  {
    var t := pre + s + post;
    forall k | 0 <= k < j - i ensures t[|pre| + i..|pre| + j][k] == s[i..j][k] {
      assert t[|pre| + i + k] == s[i + k];
    }
  }

  lemma AllSpaceConcat(a: seq<byte>, b: seq<byte>)
    requires AllSpace(a) && AllSpace(b)
    ensures AllSpace(a + b)
  {
    forall k | 0 <= k < |a + b| ensures IsSpace((a + b)[k]) {
      if k >= |a| { assert (a + b)[k] == b[k - |a|]; }
    }
  }

  lemma {:induction false} FirstNonSpaceAfterPadding(pre: seq<byte>, s: seq<byte>)
    requires AllSpace(pre)
    ensures FirstNonSpace(pre + s) == |pre| + FirstNonSpace(s)
  {
    if pre != [] {
      assert (pre + s)[1..] == pre[1..] + s;
      FirstNonSpaceAfterPadding(pre[1..], s);
    } else {
      assert pre + s == s;
    }
  }

  lemma {:induction false} FirstNonSpaceOfPrefix(s: seq<byte>, post: seq<byte>)
    requires !AllSpace(s)
    ensures FirstNonSpace(s + post) == FirstNonSpace(s)
  {
    if IsSpace(s[0]) {
      assert (s + post)[1..] == s[1..] + post;
      FirstNonSpaceOfPrefix(s[1..], post);
    }
  }

  lemma {:induction false} EndOfNonSpaceBeforePadding(s: seq<byte>, post: seq<byte>)
    requires AllSpace(post)
    ensures EndOfNonSpace(s + post) == EndOfNonSpace(s)
  {
    if post != [] {
      var t := s + post;
      assert t[..|t| - 1] == s + post[..|post| - 1];
      EndOfNonSpaceBeforePadding(s, post[..|post| - 1]);
    } else {
      assert s + post == s;
    }
  }

  lemma {:induction false} EndOfNonSpaceOfSuffix(pre: seq<byte>, s: seq<byte>)
    requires !AllSpace(s)
    ensures EndOfNonSpace(pre + s) == |pre| + EndOfNonSpace(s)
  {
    if IsSpace(s[|s| - 1]) {
      var t := pre + s;
      assert t[..|t| - 1] == pre + s[..|s| - 1];
      assert !AllSpace(s[..|s| - 1]) by {
        var k :| 0 <= k < |s| && !IsSpace(s[k]);
        assert s[..|s| - 1][k] == s[k];
      }
      EndOfNonSpaceOfSuffix(pre, s[..|s| - 1]);
    }
  }
}
