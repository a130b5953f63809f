// What the buffer readers return at a cursor, and what the writers append: the
// wire formats shared by ReadBuffer, WriteBuffer, BufferUtil and the packets.
module Codec {
  import opened Wrappers
  import opened Ints
  import VarInts

  /** ReadBuffer::ensure: len more bytes are available at the cursor. */
  predicate Ensure(data: seq<byte>, pos: nat, len: nat)
  {
    pos + len <= |data|
  }

  /** readBytes(len): the next len bytes, or a failure that leaves the cursor alone. */
  function BytesAt(data: seq<byte>, pos: nat, len: nat): (r: Read<seq<byte>>)
    ensures r.result.Ok? ==> |r.result.value| == len && r.next == pos + len <= |data|
  {
    if Ensure(data, pos, len) then Read(Ok(data[pos..pos + len]), pos + len)
    else Read(Err(OutOfBounds), pos)
  }

  function ByteAt(data: seq<byte>, pos: nat): Read<byte>
  {
    if Ensure(data, pos, 1) then Read(Ok(data[pos]), pos + 1) else Read(Err(OutOfBounds), pos)
  }

  function Int8At(data: seq<byte>, pos: nat): Read<int8>
  {
    var r := ByteAt(data, pos);
    if r.result.Err? then Read(Err(r.result.error), r.next) else Read(Ok(AsInt8(r.result.value)), r.next)
  }

  function BoolAt(data: seq<byte>, pos: nat): Read<bool>
  {
    var r := ByteAt(data, pos);
    if r.result.Err? then Read(Err(r.result.error), r.next) else Read(Ok(r.result.value != 0), r.next)
  }

  function Int16At(data: seq<byte>, pos: nat): Read<int16>
  {
    var r := BytesAt(data, pos, 2);
    if r.result.Err? then Read(Err(r.result.error), r.next) else Read(Ok(Int16Of(r.result.value)), r.next)
  }

  function UInt16At(data: seq<byte>, pos: nat): Read<uint16>
  {
    var r := BytesAt(data, pos, 2);
    if r.result.Err? then Read(Err(r.result.error), r.next) else Read(Ok(UInt16Of(r.result.value)), r.next)
  }

  function Int32At(data: seq<byte>, pos: nat): Read<int32>
  {
    var r := BytesAt(data, pos, 4);
    if r.result.Err? then Read(Err(r.result.error), r.next) else Read(Ok(Int32Of(r.result.value)), r.next)
  }

  function UInt32At(data: seq<byte>, pos: nat): Read<uint32>
  {
    var r := BytesAt(data, pos, 4);
    if r.result.Err? then Read(Err(r.result.error), r.next) else Read(Ok(UInt32Of(r.result.value)), r.next)
  }

  function Int64At(data: seq<byte>, pos: nat): Read<int64>
  {
    var r := BytesAt(data, pos, 8);
    if r.result.Err? then Read(Err(r.result.error), r.next) else Read(Ok(Int64Of(r.result.value)), r.next)
  }

  /** Every fixed-width read stays inside the data, and a success moves the
      cursor by the width. */
  lemma ReadsInside(data: seq<byte>, pos: nat)
    requires pos <= |data|
    ensures pos <= Int8At(data, pos).next <= |data|
    ensures pos <= Int16At(data, pos).next <= |data|
    ensures pos <= Int32At(data, pos).next <= |data|
    ensures pos <= UInt32At(data, pos).next <= |data|
    ensures pos <= Int64At(data, pos).next <= |data|
  {
  }

  /** readString and readByteArray: a VarInt length, then that many bytes. A
      negative length is refused (see the finding on the size_t bounds check). */
  function PrefixedAt(data: seq<byte>, pos: nat): (r: Read<seq<byte>>)
    ensures r.result.Ok? ==> pos < r.next <= |data|
  {
    var l := VarInts.At(data, pos);
    assert l.result.Ok? ==> pos < l.next by {
      if pos <= |data| {
        VarInts.ReadLoopNext(data, pos, 0, 0);
      }
    }
    match l.result
    case Err(e) => Read(Err(e), l.next)
    case Ok(len) => if len < 0 then Read(Err(OutOfBounds), l.next) else BytesAt(data, l.next, len)
  }

  /** A length that static_cast<int32_t> leaves unchanged, so that the VarInt
      writeString and writeByteArray put before the bytes is the length. */
  predicate Fits(s: seq<byte>)
  {
    |s| < 0x8000_0000
  }

  /** writeString and writeByteArray: the size cast to int32 as a VarInt, then
      the bytes. From 2^31 bytes on the cast wraps and the prefix is not the size. */
  function Prefixed(s: seq<byte>): seq<byte>
  {
    VarInts.Encode(Count32(|s|)) + s
  }

  /** data holds the bytes s at position pos, stated byte by byte. */
  predicate HasAt(data: seq<byte>, pos: nat, s: seq<byte>)
    decreases |s|, 1
  {
    if s == [] then pos <= |data| else HeadAt(data, pos, s)
  }

  /** data holds the first byte of s at pos, and the rest of s after it. */
  predicate HeadAt(data: seq<byte>, pos: nat, s: seq<byte>)
    requires s != []
    decreases |s|, 0
  {
    pos < |data| && data[pos] == s[0] && HasAt(data, pos + 1, s[1..])
  }

  /** The same as a slice: data[pos..pos + |s|] is s. */
  lemma {:induction false} HasAtSlice(data: seq<byte>, pos: nat, s: seq<byte>)
    ensures HasAt(data, pos, s) <==> VarInts.HasAt(data, pos, s)
    decreases |s|
  {
    if s != [] {
      HasAtSlice(data, pos + 1, s[1..]);
      HasAtCons(data, pos, s);
      if pos + |s| <= |data| {
        var w := data[pos..pos + |s|];
        assert w[1..] == data[pos + 1..pos + |s|];
        SameHeadTail(w, s);
      }
    }
  }

  lemma SameHeadTail(x: seq<byte>, y: seq<byte>)
    requires |x| == |y| > 0
    ensures x == y <==> x[0] == y[0] && x[1..] == y[1..]
  {
    assert x == [x[0]] + x[1..];
    assert y == [y[0]] + y[1..];
  }

  lemma HasAtCons(data: seq<byte>, pos: nat, s: seq<byte>)
    requires s != []
    ensures HasAt(data, pos, s) <==> pos < |data| && data[pos] == s[0] && HasAt(data, pos + 1, s[1..])
  {
    assert HasAt(data, pos, s) == HeadAt(data, pos, s);
  }

  lemma HasAtSplit(data: seq<byte>, pos: nat, s: seq<byte>, t: seq<byte>)
    requires HasAt(data, pos, s + t)
    ensures HasAt(data, pos, s) && HasAt(data, pos + |s|, t)
  {
    HasAtSlice(data, pos, s + t);
    HasAtSlice(data, pos, s);
    HasAtSlice(data, pos + |s|, t);
    assert data[pos..pos + |s|] == data[pos..pos + |s + t|][..|s|];
    VarInts.HasAtTail(data, pos, s, t);
  }

  lemma HasAtStart(b: seq<byte>, rest: seq<byte>)
    ensures HasAt(b + rest, 0, b)
  {
    HasAtSlice(b + rest, 0, b);
    assert (b + rest)[0..|b|] == b;
  }

  lemma BytesAtHas(data: seq<byte>, pos: nat, s: seq<byte>)
    requires HasAt(data, pos, s)
    ensures BytesAt(data, pos, |s|) == Read(Ok(s), pos + |s|)
  {
    HasAtSlice(data, pos, s);
  }

  /** A packet id, or any VarInt, followed by the rest of a packet: the VarInt
      reads back, and the rest starts where it ends. */
  lemma VarIntThen(v: int32, body: seq<byte>, data: seq<byte>, pos: nat, next: nat)
    requires next == pos + |VarInts.Encode(v)| && HasAt(data, pos, VarInts.Encode(v) + body)
    ensures VarInts.At(data, pos) == Read(Ok(v), next)
    ensures HasAt(data, next, body)
  {
    HasAtSplit(data, pos, VarInts.Encode(v), body);
    HasAtSlice(data, pos, VarInts.Encode(v));
    VarInts.RoundTrip(v, data, pos);
  }

  lemma VarIntRoundTrip(v: int32, data: seq<byte>, pos: nat)
    requires HasAt(data, pos, VarInts.Encode(v))
    ensures VarInts.At(data, pos) == Read(Ok(v), pos + |VarInts.Encode(v)|)
  {
    HasAtSlice(data, pos, VarInts.Encode(v));
    VarInts.RoundTrip(v, data, pos);
  }

  lemma {:induction false} PrefixedRoundTrip(s: seq<byte>, data: seq<byte>, pos: nat)
    requires |s| < 0x8000_0000 && HasAt(data, pos, Prefixed(s))
    ensures PrefixedAt(data, pos) == Read(Ok(s), pos + |Prefixed(s)|)
  {
    var e := VarInts.Encode(|s|);
    var q := pos + |e|;
    VarIntThen(|s|, s, data, pos, q);
    BytesAtHas(data, q, s);
    PrefixedOf(data, pos, |s|, q);
  }

  /** PrefixedAt from its two reads. */
  lemma PrefixedOf(data: seq<byte>, pos: nat, len: nat, q: nat)
    requires VarInts.At(data, pos) == Read(Ok(len), q) && len < 0x8000_0000
    ensures PrefixedAt(data, pos) == BytesAt(data, q, len)
  {
  }

  /** A length-prefixed field followed by the rest of a packet. */
  lemma PrefixedThen(s: seq<byte>, body: seq<byte>, data: seq<byte>, pos: nat, next: nat)
    requires Fits(s) && next == pos + |Prefixed(s)| && HasAt(data, pos, Prefixed(s) + body)
    ensures PrefixedAt(data, pos) == Read(Ok(s), next)
    ensures HasAt(data, next, body)
  {
    HasAtSplit(data, pos, Prefixed(s), body);
    PrefixedRoundTrip(s, data, pos);
  }

  /** A fixed run of bytes, such as a uuid, followed by the rest of a packet. */
  lemma BytesThen(s: seq<byte>, body: seq<byte>, data: seq<byte>, pos: nat, next: nat)
    requires next == pos + |s| && HasAt(data, pos, s + body)
    ensures BytesAt(data, pos, |s|) == Read(Ok(s), next)
    ensures HasAt(data, next, body)
  {
    HasAtSplit(data, pos, s, body);
    BytesAtHas(data, pos, s);
  }

  /** Dropping the last byte of a concatenation drops it from its second part. */
  lemma CutLast(a: seq<byte>, t: seq<byte>)
    requires t != []
    ensures (a + t)[..|a + t| - 1] == a + t[..|t| - 1]
  {
  }

  /** A big-endian unsigned short followed by the rest of a packet. */
  lemma UInt16Then(v: uint16, body: seq<byte>, data: seq<byte>, pos: nat, next: nat)
    requires next == pos + 2 && HasAt(data, pos, UInt16Bytes(v) + body)
    ensures UInt16At(data, pos) == Read(Ok(v), next)
    ensures HasAt(data, next, body)
  {
    HasAtSplit(data, pos, UInt16Bytes(v), body);
    UInt16RoundTrip(v, data, pos);
  }

  /** A length-prefixed field that is missing its last byte is refused as a read
      out of bounds, whether that byte is the length itself or the final data byte. */
  lemma PrefixedTruncated(s: seq<byte>, data: seq<byte>, pos: nat)
    requires Fits(s) && pos + |Prefixed(s)| == |data| + 1
    requires HasAt(data, pos, Prefixed(s)[..|Prefixed(s)| - 1])
    ensures PrefixedAt(data, pos).result == Err(OutOfBounds)
  {
    var e := VarInts.Encode(|s|);
    VarInts.EncodeLength(|s|);
    if s == [] {
      assert e == [0];
      assert pos == |data|;
    } else {
      assert Prefixed(s)[..|Prefixed(s)| - 1] == e + s[..|s| - 1];
      VarIntThen(|s|, s[..|s| - 1], data, pos, pos + |e|);
    }
  }

  lemma Int16RoundTrip(v: int16, data: seq<byte>, pos: nat)
    requires HasAt(data, pos, Int16Bytes(v))
    ensures Int16At(data, pos) == Read(Ok(v), pos + 2)
  {
    HasAtSlice(data, pos, Int16Bytes(v));
    Ints.Int16RoundTrip(v);
  }

  lemma UInt16RoundTrip(v: uint16, data: seq<byte>, pos: nat)
    requires HasAt(data, pos, UInt16Bytes(v))
    ensures UInt16At(data, pos) == Read(Ok(v), pos + 2)
  {
    HasAtSlice(data, pos, UInt16Bytes(v));
    Ints.UInt16RoundTrip(v);
  }

  lemma Int32RoundTrip(v: int32, data: seq<byte>, pos: nat)
    requires HasAt(data, pos, Int32Bytes(v))
    ensures Int32At(data, pos) == Read(Ok(v), pos + 4)
  {
    HasAtSlice(data, pos, Int32Bytes(v));
    Ints.Int32RoundTrip(v);
  }

  lemma UInt32RoundTrip(v: uint32, data: seq<byte>, pos: nat)
    requires HasAt(data, pos, UInt32Bytes(v))
    ensures UInt32At(data, pos) == Read(Ok(v), pos + 4)
  {
    HasAtSlice(data, pos, UInt32Bytes(v));
    Ints.UInt32RoundTrip(v);
  }

  lemma Int64RoundTrip(v: int64, data: seq<byte>, pos: nat)
    requires HasAt(data, pos, Int64Bytes(v))
    ensures Int64At(data, pos) == Read(Ok(v), pos + 8)
  {
    HasAtSlice(data, pos, Int64Bytes(v));
    Ints.Int64RoundTrip(v);
  }

  // The bounds check of readString and readByteArray as written: the int length
  // is converted to size_t, so readPos_ + len is computed modulo 2^64.

  function EnsureAsWritten(pos: nat, size: nat, len: int32): bool
  {
    (pos + len % TWO_64) % TWO_64 <= size
  }

  /** The five bytes FF FF FF FF 0F decode to the length -1, and the as-written check
      then passes (5 + (2^64 - 1) wraps to 4), so the string constructor receives an
      end iterator before its begin. The model refuses the negative length instead. */
  lemma NegativeLengthPassesCheck()
    ensures var data: seq<byte> := [0xFF, 0xFF, 0xFF, 0xFF, 0x0F];
      && VarInts.At(data, 0) == Read(Ok(-1), 5)
      && EnsureAsWritten(5, |data|, -1)
      && PrefixedAt(data, 0) == Read(Err(OutOfBounds), 5)
  {
    var data: seq<byte> := [0xFF, 0xFF, 0xFF, 0xFF, 0x0F];
    MinusOneVarInt();
    EnsureAsWrittenNegative(5, |data|, -1);
  }

  /** FF FF FF FF 0F is the VarInt of -1. */
  lemma MinusOneVarInt()
    ensures VarInts.At([0xFF, 0xFF, 0xFF, 0xFF, 0x0F], 0) == Read(Ok(-1), 5)
  {
    var data: seq<byte> := [0xFF, 0xFF, 0xFF, 0xFF, 0x0F];
    assert VarInts.Encode(-1) == data;
    HasAtStart(data, []);
    assert data + [] == data;
    VarIntRoundTrip(-1, data, 0);
  }

  /** The negative length the as-written check lets through is exactly one whose
      magnitude does not exceed the cursor. */
  lemma EnsureAsWrittenNegative(pos: nat, size: nat, len: int32)
    requires len < 0 && pos <= size < TWO_32
    ensures EnsureAsWritten(pos, size, len) <==> 0 <= pos + len
  {
    if 0 <= pos + len {
      assert (pos + len % TWO_64) % TWO_64 == pos + len;
    } else {
      assert (pos + len % TWO_64) % TWO_64 == pos + len + TWO_64;
    }
  }
}
