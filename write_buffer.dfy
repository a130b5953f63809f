// mc::buffer::WriteBuffer as implemented in write_buffer.cpp: a list of segments
// and their total size; compile() joins the segments in order.
module WriteBuffers {
  import opened Ints
  import VarInts
  import Codec

  /** The segments joined in order. */
  function Flatten(segments: seq<seq<byte>>): seq<byte>
  {
    if segments == [] then [] else Flatten(segments[..|segments| - 1]) + segments[|segments| - 1]
  }

  /** Joining in order is joining the first segment to the joined others. */
  lemma {:induction false} FlattenHead(segments: seq<seq<byte>>)
    requires segments != []
    ensures Flatten(segments) == segments[0] + Flatten(segments[1..])
    decreases |segments|
  {
    var n := |segments|;
    if n > 1 {
      var init := segments[..n - 1];
      FlattenHead(init);
      assert init[1..] == segments[1..][..n - 2];
      assert init[0] == segments[0];
      assert segments[1..][n - 2] == segments[n - 1];
      assert Flatten(segments[1..]) == Flatten(init[1..]) + segments[n - 1];
    } else {
      assert segments[1..] == [];
      assert segments[..0] == [];
    }
  }

  /** The loop of writeLong: byte 7 - i of the buffer is (value >> 8 * i) & 0xFF,
      for i from 7 down to 0, which is byte i of the two's complement pattern. */
  method LongBytes(value: int64) returns (buf: seq<byte>)
    ensures buf == Int64Bytes(value)
  {
    var u: nat := value % TWO_64;
    buf := [];
    var i: int := 7;
    assert ShiftBytes(u, 8) == 0 by { Pow256Values(); }
    while i >= 0
      invariant -1 <= i <= 7
      invariant buf == BE(ShiftBytes(u, i + 1), 7 - i)
    {
      BEStep(u, i, 7 - i);
      buf := buf + [ShiftBytes(u, i) % 256];
      i := i - 1;
    }
  }

  class WriteBuffer {
    var segments: seq<seq<byte>>
    var totalSize: nat

    ghost predicate Valid()
      reads this
    {
      totalSize == |Flatten(segments)|
    }

    /** The bytes written so far, which compile() returns. */
    ghost function Contents(): seq<byte>
      reads this
    {
      Flatten(segments)
    }

    constructor ()
      ensures Valid() && Contents() == [] && segments == []
    {
      segments := [];
      totalSize := 0;
    }

    method WriteBytes(d: seq<byte>)
      requires Valid()
      modifies this
      ensures Valid() && segments == old(segments) + [d]
      ensures Contents() == old(Contents()) + d
    {
      segments := segments + [d];
      assert segments[..|segments| - 1] == old(segments);
      totalSize := totalSize + |d|;
    }

    /** compile(): the in-order concatenation of the segments, totalSize_ bytes long. */
    method Compile() returns (out: seq<byte>)
      requires Valid()
      ensures out == Contents() && |out| == totalSize
    {
      out := [];
      for i := 0 to |segments|
        invariant out == Flatten(segments[..i])
      {
        assert segments[..i + 1][..i] == segments[..i];
        out := out + segments[i];
      }
      assert segments[..|segments|] == segments;
    }

    method Clear()
      modifies this
      ensures Valid() && segments == [] && totalSize == 0 && Contents() == []
    {
      segments := [];
      totalSize := 0;
    }

    method WriteBool(value: bool)
      requires Valid()
      modifies this
      ensures Valid() && Contents() == old(Contents()) + [if value then 1 else 0]
    {
      WriteBytes([if value then 1 else 0]);
    }

    /** writeInt8 copies the byte of the two's complement representation. */
    method WriteInt8(value: int8)
      requires Valid()
      modifies this
      ensures Valid() && Contents() == old(Contents()) + [value % 256]
    {
      WriteBytes([value % 256]);
    }

    method WriteUInt8(value: byte)
      requires Valid()
      modifies this
      ensures Valid() && Contents() == old(Contents()) + [value]
    {
      WriteBytes([value]);
    }

    method WriteInt16(value: int16)
      requires Valid()
      modifies this
      ensures Valid() && Contents() == old(Contents()) + Int16Bytes(value)
    {
      var u := value % 0x1_0000;
      BE2(u);
      WriteBytes([(u / 0x100) % 0x100, u % 0x100]);
    }

    method WriteUInt16(value: uint16)
      requires Valid()
      modifies this
      ensures Valid() && Contents() == old(Contents()) + UInt16Bytes(value)
    {
      BE2(value);
      WriteBytes([(value / 0x100) % 0x100, value % 0x100]);
    }

    method WriteInt32(value: int32)
      requires Valid()
      modifies this
      ensures Valid() && Contents() == old(Contents()) + Int32Bytes(value)
    {
      var u := AsUInt32(value);
      BE4(u);
      WriteBytes([(u / 0x100_0000) % 0x100, (u / 0x1_0000) % 0x100, (u / 0x100) % 0x100, u % 0x100]);
    }

    method WriteUInt32(value: uint32)
      requires Valid()
      modifies this
      ensures Valid() && Contents() == old(Contents()) + UInt32Bytes(value)
    {
      BE4(value);
      WriteBytes([(value / 0x100_0000) % 0x100, (value / 0x1_0000) % 0x100,
                  (value / 0x100) % 0x100, value % 0x100]);
    }

    method WriteLong(value: int64)
      requires Valid()
      modifies this
      ensures Valid() && Contents() == old(Contents()) + Int64Bytes(value)
    {
      var buf := LongBytes(value);
      WriteBytes(buf);
    }

    /** writeVarInt with the value shifted as a uint32, as FastSerializer does; the
        as-written signed shift is VarInts.SignedStep. One segment per byte. */
    method WriteVarInt(value: int32)
      requires Valid()
      modifies this
      ensures Valid() && Contents() == old(Contents()) + VarInts.Encode(value)
    {
      var u: nat := AsUInt32(value);
      ghost var emitted: seq<byte> := [];
      while true
        invariant Valid()
        invariant Contents() == old(Contents()) + emitted
        invariant emitted + VarInts.Leb128(u) == VarInts.Encode(value)
        decreases u
      {
        ghost var before, w := emitted, u;
        VarInts.Leb128Unfold(u);
        var temp := u % 128;
        u := u / 128;
        if u != 0 {
          temp := temp + 128;
        }
        WriteBytes([temp]);
        emitted := emitted + [temp];
        Concat3(old(Contents()), before, [temp]);
        if u == 0 {
          return;
        }
        Concat3(before, [temp], VarInts.Leb128(u));
      }
    }

    /** writeString and writeByteArray: the size cast to int32 as a VarInt, then
        the bytes. */
    method WriteString(s: seq<byte>)
      requires Valid()
      modifies this
      ensures Valid() && Contents() == old(Contents()) + Codec.Prefixed(s)
    {
      WriteVarInt(Count32(|s|));
      WriteBytes(s);
    }

    method WriteByteArray(s: seq<byte>)
      requires Valid()
      modifies this
      ensures Valid() && Contents() == old(Contents()) + Codec.Prefixed(s)
    {
      WriteString(s);
    }
  }
}
