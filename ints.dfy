// Fixed-width integers of the C++ code as ranges of mathematical integers,
// two's complement conversion, and big-endian byte encodings.
module Ints {

  type byte = b: int | 0 <= b < 256
  type int8 = x: int | -0x80 <= x < 0x80
  type int16 = x: int | -0x8000 <= x < 0x8000
  type uint16 = x: int | 0 <= x < 0x1_0000
  type int32 = x: int | -0x8000_0000 <= x < 0x8000_0000
  type uint32 = x: int | 0 <= x < 0x1_0000_0000
  type int64 = x: int | -0x8000_0000_0000_0000 <= x < 0x8000_0000_0000_0000
  type uint64 = x: int | 0 <= x < 0x1_0000_0000_0000_0000

  const TWO_32: int := 0x1_0000_0000
  const TWO_64: int := 0x1_0000_0000_0000_0000

  /** 256 to the power n: the number of values that fit in n bytes. */
  function Pow256(n: nat): (p: int)
    ensures p >= 1
  {
    if n == 0 then 1 else 256 * Pow256(n - 1)
  }

  /** Euclidean division is determined by its defining equation. */
  /** Concatenation regrouped. */
  lemma Concat3(a: seq<byte>, b: seq<byte>, c: seq<byte>)
    ensures a + (b + c) == a + b + c
  {
  }

  lemma ModUnique(x: int, p: int, q: int, r: int)
    requires p > 0 && 0 <= r < p && x == q * p + r
    ensures x / p == q && x % p == r
  {
    var q0, r0 := x / p, x % p;
    assert x == q0 * p + r0;
    assert (q - q0) * p == r0 - r;
    if q > q0 {
      MulAtLeast(q - q0, p);
      assert false;
    }
    if q < q0 {
      MulAtLeast(q0 - q, p);
      assert false;
    }
  }

  /** Splitting a modulus a * b into its two factors. */
  lemma DivModSplit(x: nat, a: int, b: int)
    requires a > 0 && b > 0
    ensures x / (a * b) == (x / a) / b
    ensures x % (a * b) == x % a + ((x / a) % b) * a
  {
    var q, r := x / a, x % a;
    var q2, r2 := q / b, q % b;
    assert q == q2 * b + r2;
    assert x == q2 * (a * b) + (r2 * a + r) by {
      assert x == q * a + r;
      assert q * a == (q2 * b + r2) * a;
    }
    MulMono(r2, b - 1, a);
    assert r2 * a + r < a * b;
    assert 0 <= r2 * a;
    ModUnique(x, a * b, q2, r2 * a + r);
  }

  lemma MulMono(c: int, d: int, a: int)
    requires 0 <= c <= d && a >= 0
    ensures 0 <= c * a <= d * a
  {
    assert d * a - c * a == (d - c) * a;
  }

  lemma DivLess(v: nat, p: int)
    requires p >= 1 && v < 256 * p
    ensures v / 256 < p
  {
  }

  lemma MulAtLeast(a: int, p: int)
    requires a >= 1 && p > 0
    ensures a * p >= p
  {
  }

  // Casts between signed and unsigned types of one width keep the bit pattern.

  function AsInt8(u: byte): int8 { if u >= 0x80 then u - 0x100 else u }
  function AsInt16(u: uint16): int16 { if u >= 0x8000 then u - 0x1_0000 else u }
  function AsInt32(u: uint32): int32 { if u >= 0x8000_0000 then u - TWO_32 else u }
  function AsInt64(u: nat): int64
    requires u < TWO_64
  {
    if u >= 0x8000_0000_0000_0000 then u - TWO_64 else u
  }

  /** The uint32 with the bit pattern of v: a cast of an int32, or a truncation. */
  function AsUInt32(v: int): uint32 { v % TWO_32 }

  /** static_cast<int32_t> of a size: its low 32 bits as a signed value. A size
      below 2^31 is unchanged; a larger one wraps, and may turn negative. */
  function Count32(n: nat): (r: int32)
    ensures n < 0x8000_0000 ==> r == n
  {
    AsInt32(AsUInt32(n))
  }

  /** The cast keeps the bit pattern: the result's low 32 bits are the size's. */
  lemma Count32Bits(n: nat)
    ensures AsUInt32(Count32(n)) == AsUInt32(n)
  {
    AsUInt32OfAsInt32(AsUInt32(n));
  }

  lemma AsInt32OfAsUInt32(v: int32)
    ensures AsInt32(AsUInt32(v)) == v
  {
  }

  lemma AsUInt32OfAsInt32(u: uint32)
    ensures AsUInt32(AsInt32(u)) == u
  {
    if u >= 0x8000_0000 {
      ModUnique(u - TWO_32, TWO_32, -1, u);
    }
  }

  /** The low n bytes of v, most significant first: byte k of the result is
      (v >> 8 * (n - 1 - k)) & 0xFF. */
  function BE(v: nat, n: nat): (r: seq<byte>)
    ensures |r| == n
  {
    if n == 0 then [] else BE(v / 256, n - 1) + [v % 256]
  }

  /** The number whose big-endian encoding is s. */
  function UnBE(s: seq<byte>): (v: nat)
    ensures v < Pow256(|s|)
  {
    if s == [] then 0 else UnBE(s[..|s| - 1]) * 256 + s[|s| - 1]
  }

  lemma {:induction false} UnBEofBE(v: nat, n: nat)
    requires v < Pow256(n)
    ensures UnBE(BE(v, n)) == v
  {
    if n > 0 {
      var q := v / 256;
      var r := BE(v, n);
      assert r == BE(q, n - 1) + [v % 256];
      assert r[..n - 1] == BE(q, n - 1);
      DivLess(v, Pow256(n - 1));
      UnBEofBE(q, n - 1);
      assert UnBE(r) == UnBE(r[..n - 1]) * 256 + r[n - 1];
    }
  }

  lemma {:induction false} BEofUnBE(s: seq<byte>)
    ensures BE(UnBE(s), |s|) == s
  {
    if s != [] {
      var init := s[..|s| - 1];
      BEofUnBE(init);
      assert UnBE(s) / 256 == UnBE(init);
      assert s == init + [s[|s| - 1]];
    }
  }

  lemma UnBE2(s: seq<byte>)
    requires |s| == 2
    ensures UnBE(s) == s[0] as int * 0x100 + s[1] as int
  {
    assert s[..1][..0] == [];
  }

  lemma UnBE4(s: seq<byte>)
    requires |s| == 4
    ensures UnBE(s) == s[0] as int * 0x100_0000 + s[1] as int * 0x1_0000 + s[2] as int * 0x100 + s[3] as int
  {
    UnBE2(s[..2]);
    assert s[..3][..2] == s[..2];
  }

  lemma UnBE8(s: seq<byte>)
    requires |s| == 8
    ensures UnBE(s) == UnBE(s[..4]) * TWO_32 + UnBE(s[4..])
  {
    var t := s[4..];
    UnBE4(t);
    assert s[..7][..6] == s[..6] && s[..6][..5] == s[..5] && s[..5][..4] == s[..4];
    assert UnBE(s[..5]) == UnBE(s[..4]) * 256 + t[0];
    assert UnBE(s[..6]) == UnBE(s[..5]) * 256 + t[1];
    assert UnBE(s[..7]) == UnBE(s[..6]) * 256 + t[2];
    assert UnBE(s) == UnBE(s[..7]) * 256 + t[3];
  }

  lemma BE2(v: nat)
    ensures BE(v, 2) == [(v / 0x100) % 0x100, v % 0x100]
  {
  }

  lemma BE4(v: nat)
    ensures BE(v, 4) == [(v / 0x100_0000) % 0x100, (v / 0x1_0000) % 0x100, (v / 0x100) % 0x100, v % 0x100]
  {
    var v1, v2 := v / 256, v / 256 / 256;
    DivDiv(v, 256, 256);
    DivDiv(v, 0x1_0000, 256);
    assert BE(v, 4) == BE(v1, 3) + [v % 256];
    assert BE(v1, 3) == BE(v2, 2) + [v1 % 256];
    BE2(v2);
  }

  /** v >> 8 * k for a non-negative v. */
  function ShiftBytes(v: nat, k: nat): nat
  {
    DivNat(v, Pow256(k))
  }

  function DivNat(v: nat, d: int): nat
    requires d >= 1
  {
    v / d
  }

  /** Appending byte k of v to its bytes above k gives its bytes from k up. */
  lemma BEStep(v: nat, k: nat, n: nat)
    ensures BE(ShiftBytes(v, k + 1), n) + [ShiftBytes(v, k) % 256] == BE(ShiftBytes(v, k), n + 1)
  {
    var p := Pow256(k);
    var x := ShiftBytes(v, k);
    assert ShiftBytes(v, k + 1) == x / 256 by {
      DivDiv(v, p, 256);
      assert Pow256(k + 1) == p * 256;
    }
  }

  lemma DivDiv(x: nat, a: int, b: int)
    requires a > 0 && b > 0
    ensures x / (a * b) == x / a / b
  {
    DivModSplit(x, a, b);
  }

  /** The low n + m bytes of v are its bytes above m followed by its low m bytes. */
  lemma {:induction false} BEConcat(v: nat, n: nat, m: nat)
    ensures BE(v, n + m) == BE(ShiftBytes(v, m), n) + BE(v, m)
  {
    if m > 0 {
      var q := v / 256;
      var hi := BE(ShiftBytes(q, m - 1), n);
      BEConcat(q, n, m - 1);
      assert ShiftBytes(q, m - 1) == ShiftBytes(v, m) by {
        DivDiv(v, 256, Pow256(m - 1));
      }
      assert BE(v, n + m) == BE(q, n + m - 1) + [v % 256];
      assert BE(v, m) == BE(q, m - 1) + [v % 256];
      assert BE(q, n + m - 1) == hi + BE(q, m - 1);
    }
  }

  /** Only v modulo 256^m affects its low m bytes. */
  lemma {:induction false} BEMod(v: nat, m: nat)
    ensures BE(v % Pow256(m), m) == BE(v, m)
  {
    if m > 0 {
      var p := Pow256(m - 1);
      var lo := v % Pow256(m);
      DivModSplit(v, 256, p);
      ModUnique(lo, 256, (v / 256) % p, v % 256);
      BEMod(v / 256, m - 1);
    }
  }

  lemma BE8(v: nat)
    ensures BE(v, 8) == BE(v / TWO_32, 4) + BE(v % TWO_32, 4)
  {
    Pow256Values();
    BEConcat(v, 4, 4);
    BEMod(v, 4);
  }

  lemma Pow256Values()
    ensures Pow256(1) == 0x100 && Pow256(2) == 0x1_0000
    ensures Pow256(4) == 0x1_0000_0000
    ensures Pow256(8) == 0x1_0000_0000_0000_0000
  {
    assert Pow256(2) == 0x1_0000;
    assert Pow256(3) == 0x100_0000;
    assert Pow256(4) == 0x1_0000_0000;
    assert Pow256(6) == 0x1_0000_0000_0000;
  }

  // The encodings the buffers write for each fixed-width type, and their inverses.

  function Int16Bytes(v: int16): seq<byte> { BE(v % 0x1_0000, 2) }
  function UInt16Bytes(v: uint16): seq<byte> { BE(v, 2) }
  function Int32Bytes(v: int32): seq<byte> { BE(AsUInt32(v), 4) }
  function UInt32Bytes(v: uint32): seq<byte> { BE(v, 4) }
  function Int64Bytes(v: int64): seq<byte> { BE(v % TWO_64, 8) }

  function Int16Of(s: seq<byte>): int16 requires |s| == 2 { Pow256Values(); AsInt16(UnBE(s)) }
  function UInt16Of(s: seq<byte>): uint16 requires |s| == 2 { Pow256Values(); UnBE(s) }
  function Int32Of(s: seq<byte>): int32 requires |s| == 4 { Pow256Values(); AsInt32(UnBE(s)) }
  function UInt32Of(s: seq<byte>): uint32 requires |s| == 4 { Pow256Values(); UnBE(s) }
  function Int64Of(s: seq<byte>): int64 requires |s| == 8 { Pow256Values(); AsInt64(UnBE(s)) }

  lemma Int16RoundTrip(v: int16)
    ensures |Int16Bytes(v)| == 2 && Int16Of(Int16Bytes(v)) == v
  {
    Pow256Values();
    UnBEofBE(v % 0x1_0000, 2);
  }

  lemma UInt16RoundTrip(v: uint16)
    ensures |UInt16Bytes(v)| == 2 && UInt16Of(UInt16Bytes(v)) == v
  {
    Pow256Values();
    UnBEofBE(v, 2);
  }

  lemma Int32RoundTrip(v: int32)
    ensures |Int32Bytes(v)| == 4 && Int32Of(Int32Bytes(v)) == v
  {
    Pow256Values();
    UnBEofBE(AsUInt32(v), 4);
  }

  lemma UInt32RoundTrip(v: uint32)
    ensures |UInt32Bytes(v)| == 4 && UInt32Of(UInt32Bytes(v)) == v
  {
    Pow256Values();
    UnBEofBE(v, 4);
  }

  lemma Int64RoundTrip(v: int64)
    ensures |Int64Bytes(v)| == 8 && Int64Of(Int64Bytes(v)) == v
  {
    Pow256Values();
    UnBEofBE(v % TWO_64, 8);
  }

  /** Decoding is injective the other way too: every 4-byte pattern is some int32's. */
  lemma Int32Onto(s: seq<byte>)
    requires |s| == 4
    ensures Int32Bytes(Int32Of(s)) == s
  {
    Pow256Values();
    BEofUnBE(s);
    AsUInt32OfAsInt32(UnBE(s));
  }
}
