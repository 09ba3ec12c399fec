/**
 * Bytes and the fixed-width integer encoding used by the envelope: the
 * 8-byte little-endian two's-complement form that `binary.Write` and
 * `binary.Read` use for an `int64`.
 */
module Bytes {

  /** An octet, by its unsigned value. */
  newtype byte = x: int | 0 <= x < 256

  /** 2^63: every Go `int64` lies in [-Int64Bound, Int64Bound). */
  const Int64Bound: int := 0x8000_0000_0000_0000
  /** 2^64: the number of distinct 64-bit patterns. */
  const Uint64Bound: int := 0x1_0000_0000_0000_0000

  const CarriageReturn: byte := 13
  const LineFeed: byte := 10

  /** The byte whose unsigned value is x. */
  function ByteOf(x: int): (b: byte)
    requires 0 <= x < 256
    ensures b as int == x
  {
    x as byte
  }

  /** The unsigned value of a byte. */
  function ValueOf(b: byte): (x: int)
    ensures 0 <= x < 256
  {
    b as int
  }

  lemma ValueOfInjective(a: byte, b: byte)
    requires ValueOf(a) == ValueOf(b)
    ensures a == b
  {
  }

  function Pow2(k: nat): (p: nat)
    ensures p > 0
  {
    if k == 0 then 1 else 2 * Pow2(k - 1)
  }

  /** Bitwise exclusive or of the k low-order bits of a and b. */
  function XorBits(a: nat, b: nat, k: nat): (r: nat)
    ensures r < Pow2(k)
  {
    if k == 0 then 0 else (a + b) % 2 + 2 * XorBits(a / 2, b / 2, k - 1)
  }

  /** XORing with b twice gives back a. */
  lemma {:induction false} XorBitsTwice(a: nat, b: nat, k: nat)
    requires a < Pow2(k)
    ensures XorBits(XorBits(a, b, k), b, k) == a
  {
    if k > 0 {
      var rest := XorBits(a / 2, b / 2, k - 1);
      var c := XorBits(a, b, k);
      SplitBit((a + b) % 2, rest);
      ParityCancels(a, b, c);
      HalfBound(a, Pow2(k - 1));
      XorBitsTwice(a / 2, b / 2, k - 1);
      var low, high := (c + b) % 2, XorBits(rest, b / 2, k - 1);
      assert low == a % 2 && high == a / 2;
      assert XorBits(c, b, k) == low + 2 * high;
    }
  }

  lemma SplitBit(bit: int, rest: int)
    requires 0 <= bit < 2
    ensures (bit + 2 * rest) % 2 == bit && (bit + 2 * rest) / 2 == rest
  {
  }

  lemma ParityCancels(a: nat, b: nat, c: nat)
    requires c % 2 == (a + b) % 2
    ensures (c + b) % 2 == a % 2
  {
  }

  lemma HalfBound(a: nat, p: nat)
    requires a < 2 * p
    ensures a / 2 < p && a % 2 + 2 * (a / 2) == a
  {
  }

  lemma Pow2Eight()
    ensures Pow2(8) == 256
  {
  }

  /** Go's `^` on two bytes. */
  function Xor(a: byte, b: byte): (r: byte)
    ensures r as int % 2 == (a as int + b as int) % 2
  {
    Pow2Eight();
    XorBits(a as nat, b as nat, 8) as byte
  }

  /** XOR with a fixed byte is its own inverse. */
  lemma XorTwice(a: byte, b: byte)
    ensures Xor(Xor(a, b), b) == a
  {
    Pow2Eight();
    XorBitsTwice(a as nat, b as nat, 8);
  }

  /** Flipping the lowest bit changes the byte. */
  lemma XorOneChanges(a: byte)
    ensures Xor(a, 1) != a
  {
    assert Xor(a, 1) as int % 2 != a as int % 2;
  }

  function Pow256(k: nat): (p: nat)
    ensures p > 0
  {
    if k == 0 then 1 else 256 * Pow256(k - 1)
  }

  lemma Pow256Eight()
    ensures Pow256(8) == Uint64Bound
  {
    assert Pow256(4) == 0x1_0000_0000;
  }

  /** The k low-order bytes of u, least significant first. */
  function LittleEndian(u: nat, k: nat): (s: seq<byte>)
    ensures |s| == k
  {
    if k == 0 then [] else [ByteOf(u % 256)] + LittleEndian(u / 256, k - 1)
  }

  /** The unsigned value of a little-endian byte string. */
  function LittleEndianValue(s: seq<byte>): (u: nat)
    ensures u < Pow256(|s|)
  {
    if s == [] then 0 else ValueOf(s[0]) + 256 * LittleEndianValue(s[1..])
  }

  lemma {:induction false} LittleEndianRoundTrip(u: nat, k: nat)
    requires u < Pow256(k)
    ensures LittleEndianValue(LittleEndian(u, k)) == u
  {
    if k > 0 {
      var s := LittleEndian(u, k);
      assert s[1..] == LittleEndian(u / 256, k - 1);
      LittleEndianRoundTrip(u / 256, k - 1);
    }
  }

  lemma {:induction false} LittleEndianOfValue(s: seq<byte>)
    ensures LittleEndian(LittleEndianValue(s), |s|) == s
  {
    if s != [] {
      var u := LittleEndianValue(s);
      var t := LittleEndianValue(s[1..]);
      DivModByte(ValueOf(s[0]), t);
      ValueOfInjective(ByteOf(u % 256), s[0]);
      LittleEndianOfValue(s[1..]);
    }
  }

  lemma DivModByte(v: int, t: int)
    requires 0 <= v < 256
    ensures (v + 256 * t) % 256 == v && (v + 256 * t) / 256 == t
  {
  }

  /** `binary.Write(w, binary.LittleEndian, int64(n))`: the two's-complement bytes of n. */
  function EncodeInt64(n: int): (s: seq<byte>)
    ensures |s| == 8
  {
    LittleEndian(n % Uint64Bound, 8)
  }

  /** `binary.Read(r, binary.LittleEndian, &n)` for an `int64` n. */
  function DecodeInt64(s: seq<byte>): (n: int)
    requires |s| == 8
    ensures -Int64Bound <= n < Int64Bound
  {
    Pow256Eight();
    var u := LittleEndianValue(s);
    if u < Int64Bound then u else u - Uint64Bound
  }

  /** Every `int64` survives the eight-byte encoding. */
  lemma Int64RoundTrip(n: int)
    requires -Int64Bound <= n < Int64Bound
    ensures DecodeInt64(EncodeInt64(n)) == n
  {
    Pow256Eight();
    LittleEndianRoundTrip(n % Uint64Bound, 8);
  }

  /** Every eight-byte pattern is the encoding of the value it decodes to. */
  lemma Int64Canonical(s: seq<byte>)
    requires |s| == 8
    ensures EncodeInt64(DecodeInt64(s)) == s
  {
    Pow256Eight();
    var u := LittleEndianValue(s);
    assert DecodeInt64(s) % Uint64Bound == u by {
      if u >= Int64Bound {
        assert DecodeInt64(s) == u - Uint64Bound;
      }
    }
    LittleEndianOfValue(s);
  }

  predicate IsNewline(b: byte) {
    b == CarriageReturn || b == LineFeed
  }

  predicate NoNewlines(s: seq<byte>) {
    forall i :: 0 <= i < |s| ==> !IsNewline(s[i])
  }

  /** What the decoder of package encoding/base64 does first: it drops every CR and LF byte. */
  function DropNewlines(s: seq<byte>): (r: seq<byte>)
    ensures NoNewlines(r)
    ensures |r| <= |s|
  {
    if s == [] then []
    else if IsNewline(s[0]) then DropNewlines(s[1..])
    else [s[0]] + DropNewlines(s[1..])
  }

  lemma {:induction false} DropNewlinesAppend(a: seq<byte>, b: seq<byte>)
    ensures DropNewlines(a + b) == DropNewlines(a) + DropNewlines(b)
  {
    if a != [] {
      assert (a + b)[1..] == a[1..] + b;
      DropNewlinesAppend(a[1..], b);
    } else {
      assert a + b == b;
    }
  }

  lemma {:induction false} DropNewlinesIdentity(s: seq<byte>)
    requires NoNewlines(s)
    ensures DropNewlines(s) == s
  {
    if s != [] {
      DropNewlinesIdentity(s[1..]);
    }
  }

  /** A newline-free line followed by its terminating LF reads back as the line alone. */
  lemma DropNewlinesOfLine(s: seq<byte>)
    requires NoNewlines(s)
    ensures DropNewlines(s + [LineFeed]) == s
  {
    DropNewlinesAppend(s, [LineFeed]);
    DropNewlinesIdentity(s);
  }

  function Min(a: int, b: int): int {
    if a <= b then a else b
  }
}
