/**
 * UTF-8 as section 4 of RFC 3629 defines it, and the prefix cut that both the
 * packet splitter and the reply buffer use.
 */
module Utf8 {
  import opened Bytes

  /** `(b & 0xC0) == 0x80`: a byte that continues a code point. */
  predicate IsContinuation(b: byte) { 0x80 <= b < 0xC0 }

  /** A position where a cut does not separate a continuation byte from what precedes it. */
  predicate IsBoundary(text: bytes, i: nat)
    requires i <= |text|
  {
    i == 0 || i == |text| || !IsContinuation(text[i])
  }

  /** The greatest boundary of `text` that is at most `limit`. */
  function PrefixSize(text: bytes, limit: nat): (size: nat)
    ensures size <= |text| && size <= limit
    ensures IsBoundary(text, size)
    ensures forall j: nat :: size < j <= |text| && j <= limit ==> !IsBoundary(text, j)
    decreases limit
  {
    if |text| <= limit then |text|
    else if limit == 0 || !IsContinuation(text[limit]) then limit
    else PrefixSize(text, limit - 1)
  }

  /** `utf8_prefix_size`: start at the limit and step back over continuation bytes. */
  method Utf8PrefixSize(text: bytes, limit: nat) returns (size: nat)
    ensures size == PrefixSize(text, limit)
  {
    size := if |text| < limit then |text| else limit;
    while size > 0 && size < |text| && IsContinuation(text[size])
      invariant size <= |text| && size <= limit
      invariant PrefixSize(text, size) == PrefixSize(text, limit)
    {
      size := size - 1;
    }
  }

  /** Size of the code point at the front of `t`; 0 when no well-formed one starts there. */
  function LeadSize(t: bytes): (n: nat)
    ensures n <= 4 && n <= |t|
    ensures n > 0 ==> !IsContinuation(t[0])
    ensures forall k :: 0 < k < n ==> IsContinuation(t[k])
  {
    if |t| >= 1 && t[0] < 0x80 then 1
    else if |t| >= 2 && 0xC2 <= t[0] <= 0xDF && IsContinuation(t[1]) then 2
    else if |t| >= 3 && IsContinuation(t[2]) && (
        || (t[0] == 0xE0 && 0xA0 <= t[1] <= 0xBF)
        || (0xE1 <= t[0] <= 0xEC && 0x80 <= t[1] <= 0xBF)
        || (t[0] == 0xED && 0x80 <= t[1] <= 0x9F)
        || (0xEE <= t[0] <= 0xEF && 0x80 <= t[1] <= 0xBF)) then 3
    else if |t| >= 4 && IsContinuation(t[2]) && IsContinuation(t[3]) && (
        || (t[0] == 0xF0 && 0x90 <= t[1] <= 0xBF)
        || (0xF1 <= t[0] <= 0xF3 && 0x80 <= t[1] <= 0xBF)
        || (t[0] == 0xF4 && 0x80 <= t[1] <= 0x8F)) then 4
    else 0
  }

  /** Section 4 of RFC 3629: a sequence of well-formed code points. */
  predicate WellFormed(t: bytes) {
    t == [] || (LeadSize(t) > 0 && WellFormed(t[LeadSize(t)..]))
  }

  /** A code point is recognised from its own bytes alone. */
  lemma LeadIsLocal(s: bytes, t: bytes)
    requires LeadSize(s) > 0
    requires LeadSize(s) <= |t| && t[..LeadSize(s)] == s[..LeadSize(s)]
    ensures LeadSize(t) == LeadSize(s)
  {
    var n := LeadSize(s);
    assert forall k :: 0 <= k < n ==> t[..n][k] == s[..n][k];
    assert forall k :: 0 <= k < n ==> t[k] == s[k];
  }

  lemma WellFormedStep(t: bytes)
    requires t != []
    ensures WellFormed(t) <==> LeadSize(t) > 0 && WellFormed(t[LeadSize(t)..])
  {
  }

  lemma {:induction false} WellFormedConcat(a: bytes, b: bytes)
    requires WellFormed(a) && WellFormed(b)
    ensures WellFormed(a + b)
    decreases |a|
  {
    if a == [] {
      assert a + b == b;
    } else {
      hide *;
      WellFormedStep(a);
      var n := LeadSize(a);
      DropAppend(a, b, n);
      LeadIsLocal(a, a + b);
      WellFormedConcat(a[n..], b);
      WellFormedStep(a + b);
    }
  }

  lemma {:induction false} SplitAtBoundary(t: bytes, i: nat)
    requires i <= |t| && WellFormed(t) && IsBoundary(t, i)
    ensures WellFormed(t[..i]) && WellFormed(t[i..])
    decreases |t|
  {
    if i == 0 {
      assert t[0..] == t;
    } else {
      WellFormedStep(t);
      hide LeadSize, WellFormed;
      var n := LeadSize(t);
      assert n <= i;
      assert IsBoundary(t[n..], i - n);
      hide IsBoundary;
      SplitAtBoundary(t[n..], i - n);
      CutTwice(t, n, i);
      LeadIsLocal(t, t[..i]);
      WellFormedStep(t[..i]);
    }
  }

  /** In well-formed text the byte test finds exactly the positions between code points. */
  lemma BoundaryIsCodePointCut(t: bytes, i: nat)
    requires i <= |t| && WellFormed(t)
    ensures IsBoundary(t, i) <==> WellFormed(t[..i]) && WellFormed(t[i..])
  {
    if IsBoundary(t, i) {
      SplitAtBoundary(t, i);
    }
  }

  /** Code points have at most four bytes, so a cut gives up at most three. */
  lemma {:induction false} PrefixSizeNearLimit(t: bytes, limit: nat)
    requires WellFormed(t) && limit <= |t|
    ensures PrefixSize(t, limit) + 3 >= limit
    decreases |t|
  {
    if limit > 3 {
      var n := LeadSize(t);
      PrefixSizeNearLimit(t[n..], limit - n);
      var j := PrefixSize(t[n..], limit - n);
      assert IsBoundary(t, n + j);
    }
  }

  /** Replacing ASCII bytes by ASCII bytes keeps the text well-formed. */
  lemma {:induction false} AsciiReplacement(t: bytes, u: bytes)
    requires |t| == |u| && WellFormed(t)
    requires forall i :: 0 <= i < |t| ==> u[i] == t[i] || (t[i] < 0x80 && u[i] < 0x80)
    ensures WellFormed(u)
    decreases |t|
  {
    if t != [] {
      var n := LeadSize(t);
      assert LeadSize(u) == n;
      AsciiReplacement(t[n..], u[n..]);
    }
  }

  lemma {:induction false} AsciiIsWellFormed(t: bytes)
    requires forall i :: 0 <= i < |t| ==> t[i] < 0x80
    ensures WellFormed(t)
  {
    if t != [] {
      AsciiIsWellFormed(t[1..]);
    }
  }

  /** NUL-free well-formed UTF-8: what may travel in a packet payload as text. */
  predicate IsText(t: bytes) { WellFormed(t) && NulFree(t) }

  lemma IsTextConcat(a: bytes, b: bytes)
    requires IsText(a) && IsText(b)
    ensures IsText(a + b)
  {
    hide WellFormed;
    WellFormedConcat(a, b);
  }

  lemma IsTextCut(t: bytes, i: nat)
    requires IsText(t) && i <= |t| && IsBoundary(t, i)
    ensures IsText(t[..i]) && IsText(t[i..])
  {
    hide WellFormed;
    SplitAtBoundary(t, i);
  }
}
