/** UTF-16 as sections 2.1 and 2.2 of RFC 2781 define it, and its transcoding to UTF-8. */
module Utf16 {
  import opened Bytes
  import opened Utf8

  type unit = u: int | 0 <= u < 0x1_0000
  type wide = seq<unit>

  predicate IsHigh(u: unit) { 0xD800 <= u < 0xDC00 }
  predicate IsLow(u: unit) { 0xDC00 <= u < 0xE000 }

  /** Units of the character at the front of `w`; 0 when a surrogate is unpaired. */
  function FrontUnits(w: wide): (n: nat)
    ensures n <= |w|
  {
    if |w| >= 1 && !IsHigh(w[0]) && !IsLow(w[0]) then 1
    else if |w| >= 2 && IsHigh(w[0]) && IsLow(w[1]) then 2
    else 0
  }

  predicate Paired(w: wide) {
    w == [] || (FrontUnits(w) > 0 && Paired(w[FrontUnits(w)..]))
  }

  /** The scalar value at the front. */
  function FrontScalar(w: wide): (s: nat)
    requires FrontUnits(w) > 0
    ensures s < 0xD800 || 0xE000 <= s < 0x11_0000
  {
    if FrontUnits(w) == 1 then w[0]
    else
      var high: int, low: int := w[0], w[1];
      0x1_0000 + (high - 0xD800) * 0x400 + (low - 0xDC00)
  }

  type scalar = s: int | 0 <= s < 0xD800 || 0xE000 <= s < 0x11_0000

  function Scalars(w: wide): seq<scalar>
    requires Paired(w)
  {
    if w == [] then [] else [FrontScalar(w)] + Scalars(w[FrontUnits(w)..])
  }

  /** If the unit is half of a surrogate pair, the other half is next to it. */
  predicate WellPlaced(w: wide, i: nat)
    requires i < |w|
  {
    && (0xD800 <= w[i] <= 0xDBFF ==> i + 1 < |w| && 0xDC00 <= w[i + 1] <= 0xDFFF)
    && (0xDC00 <= w[i] <= 0xDFFF ==> i > 0 && 0xD800 <= w[i - 1] <= 0xDBFF)
  }

  lemma {:induction false} PairedExactly(w: wide)
    ensures Paired(w) <==> forall i: nat :: i < |w| ==> WellPlaced(w, i)
    decreases |w|
  {
    if w != [] {
      var f := FrontUnits(w);
      if f > 0 {
        var rest := w[f..];
        PairedExactly(rest);
        forall i: nat | i < |rest|
          ensures WellPlaced(rest, i) <==> WellPlaced(w, i + f)
        {
        }
        assert WellPlaced(w, 0) && (f == 2 ==> WellPlaced(w, 1));
        hide WellPlaced;
        assert forall i: nat :: f <= i < |w| ==> WellPlaced(w, i) == WellPlaced(rest, i - f);
      } else {
        assert !WellPlaced(w, 0);
      }
    }
  }

  /** Section 2.1 of RFC 2781: the units that encode a scalar value. */
  function UnitsOf(s: scalar): wide {
    if s < 0x1_0000 then [s] else [0xD800 + (s - 0x1_0000) / 0x400, 0xDC00 + (s - 0x1_0000) % 0x400]
  }

  function AllUnits(scalars: seq<scalar>): wide {
    if scalars == [] then [] else UnitsOf(scalars[0]) + AllUnits(scalars[1..])
  }

  /** Encoding the scalar values of a text again gives the text. */
  lemma {:induction false} ScalarsEncodeBack(w: wide)
    requires Paired(w)
    ensures AllUnits(Scalars(w)) == w
    decreases |w|
  {
    if w != [] {
      var f := FrontUnits(w);
      assert f > 0;
      ScalarsStep(w, f);
      FrontEncodesBack(w);
      hide FrontUnits, FrontScalar, UnitsOf, Paired, Scalars;
      ScalarsEncodeBack(w[f..]);
      UnitsStep(FrontScalar(w), Scalars(w[f..]));
      assert w == w[..f] + w[f..];
    }
  }

  lemma UnitsStep(s: scalar, rest: seq<scalar>)
    ensures AllUnits([s] + rest) == UnitsOf(s) + AllUnits(rest)
  {
    assert ([s] + rest)[1..] == rest;
  }

  lemma FrontEncodesBack(w: wide)
    requires FrontUnits(w) > 0
    ensures UnitsOf(FrontScalar(w)) == w[..FrontUnits(w)]
  {
    if FrontUnits(w) == 2 {
      var high: int, low: int := w[0] - 0xD800, w[1] - 0xDC00;
      assert FrontScalar(w) - 0x1_0000 == high * 0x400 + low;
      assert (high * 0x400 + low) / 0x400 == high && (high * 0x400 + low) % 0x400 == low;
    }
  }

  /** The UTF-8 bytes of one scalar value. */
  function Utf8Of(s: nat): (r: bytes)
    requires s < 0xD800 || 0xE000 <= s < 0x11_0000
  {
    if s < 0x80 then [s]
    else if s < 0x800 then [0xC0 + s / 0x40, 0x80 + s % 0x40]
    else if s < 0x1_0000 then [0xE0 + s / 0x1000, 0x80 + s / 0x40 % 0x40, 0x80 + s % 0x40]
    else [0xF0 + s / 0x4_0000, 0x80 + s / 0x1000 % 0x40, 0x80 + s / 0x40 % 0x40, 0x80 + s % 0x40]
  }

  /**
   * The table in section 3 of RFC 3629: the bits of a value, from the top, in
   * the bytes behind their markers.
   */
  lemma Utf8Layout(a: nat, b: nat, c: nat, d: nat)
    requires a < 8 && b < 64 && c < 64 && d < 64
    ensures var s := a * 262144 + b * 4096 + c * 64 + d;
      && (s <= 0x7F ==> Utf8Of(s) == [s])
      && (0x80 <= s <= 0x7FF ==> Utf8Of(s) == [0xC0 + c, 0x80 + d])
      && ((0x800 <= s < 0xD800 || 0xE000 <= s <= 0xFFFF) ==> Utf8Of(s) == [0xE0 + b, 0x80 + c, 0x80 + d])
      && (0x1_0000 <= s <= 0x10_FFFF ==> Utf8Of(s) == [0xF0 + a, 0x80 + b, 0x80 + c, 0x80 + d])
  {
    var s := a * 262144 + b * 4096 + c * 64 + d;
    assert s / 0x40 == a * 4096 + b * 64 + c && s % 0x40 == d;
    assert s / 0x1000 == a * 64 + b && s / 0x40 % 0x40 == c;
    assert s / 0x4_0000 == a && s / 0x1000 % 0x40 == b;
  }

  /** The six bits a continuation byte carries. */
  function Tail(b: byte): nat
    requires IsContinuation(b)
  {
    b - 0x80
  }

  /** The scalar value of the UTF-8 code point at the front of `t`. */
  function LeadScalar(t: bytes): nat
    requires LeadSize(t) > 0
  {
    var n, lead: int := LeadSize(t), t[0];
    if n == 1 then lead
    else if n == 2 then (lead - 0xC0) * 0x40 + Tail(t[1])
    else if n == 3 then ((lead - 0xE0) * 0x40 + Tail(t[1])) * 0x40 + Tail(t[2])
    else (((lead - 0xF0) * 0x40 + Tail(t[1])) * 0x40 + Tail(t[2])) * 0x40 + Tail(t[3])
  }

  /** The scalar values a UTF-8 text encodes. */
  function ScalarsOf(t: bytes): seq<nat>
    requires WellFormed(t)
  {
    if t == [] then [] else [LeadScalar(t)] + ScalarsOf(t[LeadSize(t)..])
  }

  /** `WideCharToMultiByte(CP_UTF8, WC_ERR_INVALID_CHARS, ...)`: all of it, or an error. */
  function Transcode(w: wide): Option<bytes> {
    if w == [] then Some([])
    else if FrontUnits(w) == 0 then None
    else match Transcode(w[FrontUnits(w)..])
      case None => None
      case Some(rest) => Some(Utf8Of(FrontScalar(w)) + rest)
  }

  lemma EncodedScalar(s: nat)
    requires s < 0xD800 || 0xE000 <= s < 0x11_0000
    ensures var t := Utf8Of(s);
      && LeadSize(t) == |t| && LeadScalar(t) == s
      && |t| >= (if s < 0x1_0000 then 1 else 2)
      && (s != 0 ==> NulFree(t))
  {
    if 0x800 <= s < 0x1_0000 {
      EncodedScalar3(s);
    } else if 0x1_0000 <= s {
      EncodedScalar4(s);
    }
  }

  lemma EncodedScalar3(s: nat)
    requires 0x800 <= s < 0xD800 || 0xE000 <= s < 0x1_0000
    ensures var t := Utf8Of(s); LeadSize(t) == |t| == 3 && LeadScalar(t) == s && NulFree(t)
  {
    var t := Utf8Of(s);
    assert s / 0x40 == s / 0x1000 * 0x40 + s / 0x40 % 0x40;
    assert LeadSize(t) == 3;
    hide LeadSize;
  }

  lemma EncodedScalar4(s: nat)
    requires 0x1_0000 <= s < 0x11_0000
    ensures var t := Utf8Of(s); LeadSize(t) == |t| == 4 && LeadScalar(t) == s && NulFree(t)
  {
    var t := Utf8Of(s);
    assert s / 0x40 == s / 0x1000 * 0x40 + s / 0x40 % 0x40;
    assert s / 0x1000 == s / 0x4_0000 * 0x40 + s / 0x1000 % 0x40;
    assert LeadSize(t) == 4;
    hide LeadSize;
  }

  /** Every well-formed code point is the encoding of a scalar value: no overlong forms, no surrogates. */
  lemma LeadIsEncoding(t: bytes)
    requires LeadSize(t) > 0
    ensures var s := LeadScalar(t);
      && (s < 0xD800 || 0xE000 <= s < 0x11_0000)
      && Utf8Of(s) == t[..LeadSize(t)]
  {
    var n := LeadSize(t);
    if n == 2 {
      Digits64(t[0] - 0xC0, Tail(t[1]));
    } else if n == 3 {
      LeadIsEncoding3(t);
    } else if n == 4 {
      LeadIsEncoding4(t);
    }
  }

  lemma LeadIsEncoding3(t: bytes)
    requires LeadSize(t) == 3
    ensures var s := LeadScalar(t); (0x800 <= s < 0xD800 || 0xE000 <= s < 0x1_0000) && Utf8Of(s) == t[..3]
  {
    var high := (t[0] - 0xE0) * 0x40 + Tail(t[1]);
    Digits64(t[0] - 0xE0, Tail(t[1]));
    Digits64(high, Tail(t[2]));
    assert LeadScalar(t) / 0x1000 == high / 0x40;
  }

  lemma LeadIsEncoding4(t: bytes)
    requires LeadSize(t) == 4
    ensures var s := LeadScalar(t); 0x1_0000 <= s < 0x11_0000 && Utf8Of(s) == t[..4]
  {
    var s := LeadScalar(t);
    var top := (t[0] - 0xF0) * 0x40 + Tail(t[1]);
    var high := top * 0x40 + Tail(t[2]);
    Digits64(t[0] - 0xF0, Tail(t[1]));
    Digits64(top, Tail(t[2]));
    Digits64(high, Tail(t[3]));
    assert s / 0x1000 == high / 0x40 && s / 0x4_0000 == top / 0x40;
  }

  lemma Digits64(high: nat, low: nat)
    requires low < 0x40
    ensures (high * 0x40 + low) / 0x40 == high && (high * 0x40 + low) % 0x40 == low
  {
  }

  /**
   * Transcoding succeeds exactly on paired UTF-16; the result is well-formed
   * UTF-8 for the same scalar values, no shorter in bytes than the source in
   * units, and NUL-free if the source is.
   */
  lemma {:induction false} TranscodeExactly(w: wide)
    ensures Transcode(w).Some? <==> Paired(w)
    ensures Paired(w) ==>
              var t := Transcode(w).value;
              && WellFormed(t) && ScalarsOf(t) == Scalars(w) && |t| >= |w|
              && (0 !in w ==> NulFree(t))
    decreases |w|
  {
    if w != [] && FrontUnits(w) > 0 {
      var n, s := FrontUnits(w), FrontScalar(w);
      TranscodeExactly(w[n..]);
      if Paired(w) {
        EncodedScalar(s);
        var head, rest := Utf8Of(s), Transcode(w[n..]).value;
        PrependCodePoint(head, rest);
        assert w[0] in w;
        if n == 1 { assert s == w[0]; }
      }
    }
  }

  lemma PrependCodePoint(head: bytes, rest: bytes)
    requires LeadSize(head) == |head| > 0 && WellFormed(rest)
    ensures WellFormed(head + rest)
    ensures ScalarsOf(head + rest) == [LeadScalar(head)] + ScalarsOf(rest)
  {
    DropAppend(head, rest, |head|);
    assert head[|head|..] == [];
    assert [] + rest == rest;
    LeadIsLocal(head, head + rest);
    assert LeadScalar(head + rest) == LeadScalar(head);
    WellFormedStep(head + rest);
  }

  /** What is left of a prefix once a trailing high surrogate is dropped. */
  function DropHigh(w: wide): wide {
    if w != [] && IsHigh(w[|w| - 1]) then w[..|w| - 1] else w
  }

  /** A prefix of paired UTF-16 is paired once a trailing high surrogate is dropped. */
  lemma {:induction false} PrefixStaysPaired(w: wide, n: nat)
    requires Paired(w) && n <= |w|
    ensures Paired(DropHigh(w[..n]))
    decreases |w|
  {
    var f := FrontUnits(w);
    if n > 0 {
      if n >= f {
        PrefixStaysPaired(w[f..], n - f);
        CutTwice(w, f, n);
        PairedPrepend(w[..n], f);
      } else {
        assert DropHigh(w[..n]) == [];
      }
    }
  }

  lemma PairedPrepend(w: wide, f: nat)
    requires 0 < f <= |w| && FrontUnits(w) == f
    requires Paired(DropHigh(w[f..]))
    ensures var d := DropHigh(w);
      Paired(d) && FrontUnits(d) == f && d[..f] == w[..f] && d[f..] == DropHigh(w[f..])
  {
    var d := DropHigh(w);
    if w[f..] != [] {
      assert w[f..][|w[f..]| - 1] == w[|w| - 1];
      assert d[f..] == DropHigh(w[f..]);
      assert FrontUnits(d) == f;
    } else {
      assert d == w;
    }
  }

  /** Such a prefix carries a prefix of the scalar values. */
  lemma {:induction false} PrefixScalars(w: wide, n: nat)
    requires Paired(w) && n <= |w|
    ensures Paired(DropHigh(w[..n])) && Scalars(DropHigh(w[..n])) <= Scalars(w)
    decreases |w|
  {
    PrefixStaysPaired(w, n);
    var f, d := FrontUnits(w), DropHigh(w[..n]);
    if n > 0 {
      if n >= f {
        assert f > 0 && Paired(w[f..]) && FrontUnits(w[..n]) == f;
        hide DropHigh, FrontScalar, Paired, Scalars, FrontUnits;
        PrefixScalars(w[f..], n - f);
        CutTwice(w, f, n);
        PairedPrepend(w[..n], f);
        SameFront(w, d, f);
        ScalarsStep(w, f);
        ScalarsStep(d, f);
        PrefixCons(FrontScalar(w), Scalars(d[f..]), Scalars(w[f..]));
      } else {
        assert d == [];
      }
    }
  }

  lemma ScalarsStep(w: wide, f: nat)
    requires Paired(w) && f == FrontUnits(w) > 0
    ensures Paired(w[f..]) && Scalars(w) == [FrontScalar(w)] + Scalars(w[f..])
  {
    hide FrontScalar, FrontUnits;
  }

  lemma PrefixCons<T>(x: T, a: seq<T>, b: seq<T>)
    requires a <= b
    ensures [x] + a <= [x] + b
  {
  }

  lemma SameFront(w: wide, d: wide, f: nat)
    requires 0 < f <= |d| && f <= |w| && FrontUnits(w) == FrontUnits(d) == f
    requires d[..f] == w[..f]
    ensures FrontScalar(d) == FrontScalar(w)
  {
    assert forall i :: 0 <= i < f ==> d[i] == d[..f][i] == w[i];
  }

  /** Replacing units that are not surrogates by others that are not keeps the pairing. */
  lemma {:induction false} ReplacementStaysPaired(w: wide, v: wide)
    requires |w| == |v|
    requires forall i :: 0 <= i < |w| ==> v[i] == w[i] || (w[i] < 0xD800 && v[i] < 0xD800)
    ensures Paired(w) <==> Paired(v)
    decreases |w|
  {
    if w != [] {
      assert FrontUnits(v) == FrontUnits(w);
      if FrontUnits(w) > 0 {
        ReplacementStaysPaired(w[FrontUnits(w)..], v[FrontUnits(w)..]);
      }
    }
  }
}
