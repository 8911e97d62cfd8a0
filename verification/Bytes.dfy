/** Bytes, 32-bit integers and the small vocabulary shared by the whole model. */
module Bytes {

  type byte = b: int | 0 <= b < 256
  type bytes = seq<byte>
  type int32 = n: int | -0x8000_0000 <= n < 0x8000_0000

  datatype Option<+T> = None | Some(value: T)

  const NL: byte := 10
  const TAB: byte := 9
  const CR: byte := 13
  const SPACE: byte := 32
  const QUOTE: byte := 34
  const HASH: byte := 35
  const BACKSLASH: byte := 92
  const BAR: byte := 124
  const DEL: byte := 127

  /** The named bytes are the characters they are named after. */
  lemma NamedBytes()
    ensures NL == '\n' as int && TAB == '\t' as int && CR == '\r' as int && SPACE == ' ' as int
    ensures QUOTE == '"' as int && HASH == '#' as int && BACKSLASH == '\\' as int && BAR == '|' as int && DEL == 127
  {
  }

  /** The bytes of a literal; every literal of the model is plain ASCII. */
  function Ascii(s: string): (r: bytes)
    ensures |r| == |s|
    ensures forall i :: 0 <= i < |s| ==> r[i] == s[i] as int % 256
  {
    seq(|s|, i requires 0 <= i < |s| => s[i] as int % 256)
  }

  /** Conversion of an unsigned count to a signed 32-bit integer, wrapping. */
  function Wrap32(n: int): int32 {
    (n + 0x8000_0000) % 0x1_0000_0000 - 0x8000_0000
  }

  /** The wrapped value differs from the count by whole turns of 2^32, so the cast loses nothing that fits. */
  lemma WrapIsCongruent(n: int)
    ensures (n - Wrap32(n)) % 0x1_0000_0000 == 0
    ensures -0x8000_0000 <= n < 0x8000_0000 ==> Wrap32(n) == n
  {
    var q, r := (n + 0x8000_0000) / 0x1_0000_0000, (n + 0x8000_0000) % 0x1_0000_0000;
    assert n - Wrap32(n) == q * 0x1_0000_0000;
  }

  /** The four bytes `memcpy` copies out of a little-endian int32. */
  function Le32(n: int32): (r: bytes)
    ensures |r| == 4
  {
    var b0 := n % 0x1_0000_0000;
    var b1 := b0 / 256;
    var b2 := b1 / 256;
    [b0 % 256, b1 % 256, b2 % 256, b2 / 256]
  }

  /** Two's complement, least significant byte first. */
  lemma Le32IsLittleEndian(n: int32)
    ensures var r := Le32(n);
      r[0] as int + 0x100 * r[1] as int + 0x1_0000 * r[2] as int + 0x100_0000 * r[3] as int ==
      if n < 0 then n + 0x1_0000_0000 else n
  {
  }

  /** The int32 that `memcpy` reads back from four bytes. */
  function FromLe32(b: bytes): int32
    requires |b| == 4
  {
    Wrap32(b[0] as int + 256 * (b[1] as int + 256 * (b[2] as int + 256 * b[3] as int)))
  }

  lemma Le32RoundTrip(n: int32)
    ensures FromLe32(Le32(n)) == n
  {
    var b0 := n % 0x1_0000_0000;
    var b1 := b0 / 256;
    var b2 := b1 / 256;
    assert b0 == b0 % 256 + 256 * (b1 % 256 + 256 * (b2 % 256 + 256 * (b2 / 256)));
    assert Wrap32(b0) == n;
  }

  lemma FromLe32RoundTrip(b: bytes)
    requires |b| == 4
    ensures Le32(FromLe32(b)) == b
  {
    var v2 := b[2] as int + 256 * b[3] as int;
    var v1 := b[1] as int + 256 * v2;
    var v0 := b[0] as int + 256 * v1;
    assert FromLe32(b) == Wrap32(v0);
    WrapIsModular(v0);
    assert v0 / 256 == v1 && v1 / 256 == v2;
    assert Le32(FromLe32(b)) == [v0 % 256, v1 % 256, v2 % 256, v2 / 256];
  }

  lemma WrapIsModular(n: int)
    requires 0 <= n < 0x1_0000_0000
    ensures Wrap32(n) % 0x1_0000_0000 == n
  {
    assert Wrap32(n) == if n < 0x8000_0000 then n else n - 0x1_0000_0000;
  }

  function Concat<T>(parts: seq<seq<T>>): seq<T> {
    if parts == [] then [] else parts[0] + Concat(parts[1..])
  }

  lemma {:induction false} ConcatAppend<T>(a: seq<seq<T>>, b: seq<seq<T>>)
    ensures Concat(a + b) == Concat(a) + Concat(b)
  {
    if a == [] {
      assert a + b == b;
    } else {
      ConcatAppend(a[1..], b);
      assert (a + b)[1..] == a[1..] + b;
      Associative(a[0], Concat(a[1..]), Concat(b));
    }
  }

  lemma Associative<T>(a: seq<T>, b: seq<T>, c: seq<T>)
    ensures (a + b) + c == a + (b + c)
  {
  }

  lemma DropAppend<T>(a: seq<T>, b: seq<T>, n: nat)
    requires n <= |a|
    ensures (a + b)[..n] == a[..n] && (a + b)[n..] == a[n..] + b
  {
  }

  lemma CutTwice<T>(t: seq<T>, n: nat, i: nat)
    requires n <= i <= |t|
    ensures t[n..][i - n..] == t[i..] && t[..i][..n] == t[..n] && t[..i][n..] == t[n..][..i - n]
  {
  }

  lemma DropTwice<T>(t: seq<T>, n: nat, i: nat)
    requires n <= i <= |t|
    ensures t[n..][i - n..] == t[i..]
  {
  }

  lemma SameTail<T>(t: seq<T>, k: nat, m: nat, n: nat)
    requires k <= m <= k + n <= |t|
    ensures t[k..][n..] == t[m..][k + n - m..]
  {
  }

  lemma ConcatSnoc<T>(a: seq<seq<T>>, x: seq<T>)
    ensures Concat(a + [x]) == Concat(a) + x
  {
    ConcatAppend(a, [x]);
    assert Concat([x]) == x + Concat<T>([]);
  }

  function Min(a: nat, b: nat): nat { if a < b then a else b }

  predicate NulFree(t: bytes) { 0 !in t }

  lemma {:induction false} NulFreeParts(parts: seq<bytes>)
    ensures NulFree(Concat(parts)) <==> forall p :: p in parts ==> NulFree(p)
  {
    if parts != [] {
      NulFreeParts(parts[1..]);
      assert parts == [parts[0]] + parts[1..];
      assert NulFree(Concat(parts)) <==> NulFree(parts[0]) && NulFree(Concat(parts[1..]));
    }
  }

  function LowerByte(c: byte): byte {
    if 65 <= c <= 90 then c + 32 else c
  }

  /** `lower_ascii` and `ascii_lower`: only A to Z change. */
  function Lower(t: bytes): (r: bytes)
    ensures |r| == |t|
    ensures forall i :: 0 <= i < |t| ==> r[i] == LowerByte(t[i])
  {
    seq(|t|, i requires 0 <= i < |t| => LowerByte(t[i]))
  }

  /** Upper-case letters become lower-case ones, and all other bytes stay. */
  lemma LowerExactly(t: bytes)
    ensures |Lower(t)| == |t|
    ensures forall i :: 0 <= i < |t| ==>
              Lower(t)[i] == if 'A' as int <= t[i] <= 'Z' as int then t[i] + ('a' as int - 'A' as int) else t[i]
  {
  }

  predicate IsDigit(c: byte) { 48 <= c <= 57 }

  /** `steam_id_valid`: exactly seventeen decimal digits. */
  predicate SteamIdValid(id: bytes) {
    |id| == 17 && forall i :: 0 <= i < 17 ==> IsDigit(id[i])
  }

  lemma SteamIdExactly(id: bytes)
    ensures SteamIdValid(id) <==> |id| == 17 && forall i :: 0 <= i < |id| ==> '0' as int <= id[i] <= '9' as int
  {
  }
}
