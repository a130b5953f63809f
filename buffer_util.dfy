// mc::BufferUtil, the older buffer: one byte vector that writes append to and
// a read cursor into the same vector.
module BufferUtils {
  import opened Wrappers
  import opened Ints
  import VarInts
  import Codec

  class BufferUtil {
    var buffer: seq<byte>
    var readPos: nat

    ghost predicate Valid()
      reads this
    {
      readPos <= |buffer|
    }

    constructor ()
      ensures Valid() && buffer == [] && readPos == 0
    {
      buffer := [];
      readPos := 0;
    }

    constructor FromData(data: seq<byte>)
      ensures Valid() && buffer == data && readPos == 0
    {
      buffer := data;
      readPos := 0;
    }

    /** writeVarInt with the value shifted as a uint32; the as-written signed shift
        is VarInts.SignedStep. */
    method WriteVarInt(value: int32)
      requires Valid()
      modifies this
      ensures Valid() && buffer == old(buffer) + VarInts.Encode(value) && readPos == old(readPos)
    {
      var u: nat := AsUInt32(value);
      while true
        invariant Valid() && readPos == old(readPos)
        invariant buffer + VarInts.Leb128(u) == old(buffer) + VarInts.Encode(value)
        decreases u
      {
        ghost var before := buffer;
        VarInts.Leb128Unfold(u);
        var temp := u % 128;
        u := u / 128;
        if u != 0 {
          temp := temp + 128;
        }
        buffer := buffer + [temp];
        if u == 0 {
          return;
        }
        Concat3(before, [temp], VarInts.Leb128(u));
      }
    }

    method WriteUInt16(value: uint16)
      requires Valid()
      modifies this
      ensures Valid() && buffer == old(buffer) + UInt16Bytes(value) && readPos == old(readPos)
    {
      BE2(value);
      buffer := buffer + [(value / 0x100) % 0x100];
      buffer := buffer + [value % 0x100];
    }

    method WriteBytes(bytes: seq<byte>)
      requires Valid()
      modifies this
      ensures Valid() && buffer == old(buffer) + bytes && readPos == old(readPos)
    {
      buffer := buffer + bytes;
    }

    /** writeString and writeByteArray: the size cast to int32 as a VarInt, then
        the bytes. */
    method WriteString(s: seq<byte>)
      requires Valid()
      modifies this
      ensures Valid() && buffer == old(buffer) + Codec.Prefixed(s) && readPos == old(readPos)
    {
      WriteVarInt(Count32(|s|));
      WriteBytes(s);
    }

    method WriteByteArray(bytes: seq<byte>)
      requires Valid()
      modifies this
      ensures Valid() && buffer == old(buffer) + Codec.Prefixed(bytes) && readPos == old(readPos)
    {
      WriteString(bytes);
    }

    /** readVarInt: the same do-while as ReadBuffer::readVarInt. */
    method ReadVarInt() returns (r: Result<int32>)
      requires Valid()
      modifies this
      ensures Valid() && buffer == old(buffer) && Read(r, readPos) == VarInts.At(buffer, old(readPos))
    {
      var result: uint32 := 0;
      var numRead: nat := 0;
      while true
        invariant Valid() && numRead <= 5 && buffer == old(buffer)
        invariant VarInts.ReadLoop(buffer, readPos, numRead, result) == VarInts.At(buffer, old(readPos))
        decreases 5 - numRead
      {
        if readPos >= |buffer| {
          return Err(OutOfBounds);
        }
        var b := buffer[readPos];
        readPos := readPos + 1;
        result := AsUInt32(result + (b % 128) * VarInts.Shift7(numRead));
        numRead := numRead + 1;
        if numRead > 5 {
          return Err(VarIntTooBig);
        }
        if b < 128 {
          return Ok(AsInt32(result));
        }
      }
    }

    method ReadUInt16() returns (r: Result<uint16>)
      requires Valid()
      modifies this
      ensures Valid() && buffer == old(buffer) && Read(r, readPos) == Codec.UInt16At(buffer, old(readPos))
    {
      if readPos + 2 > |buffer| {
        return Err(OutOfBounds);
      }
      var v := buffer[readPos] as int * 0x100 + buffer[readPos + 1] as int;
      UnBE2(buffer[readPos..readPos + 2]);
      r := Ok(v);
      readPos := readPos + 2;
    }

    method ReadByte() returns (r: Result<byte>)
      requires Valid()
      modifies this
      ensures Valid() && buffer == old(buffer) && Read(r, readPos) == Codec.ByteAt(buffer, old(readPos))
    {
      if readPos >= |buffer| {
        return Err(OutOfBounds);
      }
      r := Ok(buffer[readPos]);
      readPos := readPos + 1;
    }

    /** readString: a VarInt length, then that many bytes; a negative length is
        refused (see the finding on the size_t bounds check). */
    method ReadString() returns (r: Result<seq<byte>>)
      requires Valid()
      modifies this
      ensures Valid() && buffer == old(buffer) && Read(r, readPos) == Codec.PrefixedAt(buffer, old(readPos))
    {
      var length := ReadVarInt();
      if length.Err? {
        return Err(length.error);
      }
      if length.value < 0 || readPos + length.value > |buffer| {
        return Err(OutOfBounds);
      }
      r := Ok(buffer[readPos..readPos + length.value]);
      readPos := readPos + length.value;
    }

    /** readByteArray: readBytes(readVarInt()). */
    method ReadByteArray() returns (r: Result<seq<byte>>)
      requires Valid()
      modifies this
      ensures Valid() && buffer == old(buffer) && Read(r, readPos) == Codec.PrefixedAt(buffer, old(readPos))
    {
      var length := ReadVarInt();
      if length.Err? {
        return Err(length.error);
      }
      if length.value < 0 {
        return Err(OutOfBounds);
      }
      r := ReadBytes(length.value);
    }

    method ReadBytes(length: nat) returns (r: Result<seq<byte>>)
      requires Valid()
      modifies this
      ensures Valid() && buffer == old(buffer) && Read(r, readPos) == Codec.BytesAt(buffer, old(readPos), length)
    {
      if readPos + length > |buffer| {
        return Err(OutOfBounds);
      }
      r := Ok(buffer[readPos..readPos + length]);
      readPos := readPos + length;
    }

    function Remaining(): (n: nat)
      reads this
      requires Valid()
      ensures readPos + n == |buffer|
    {
      |buffer| - readPos
    }

    function Data(): seq<byte>
      reads this
    {
      buffer
    }
  }

  /** What a fresh BufferUtil reads back from the bytes another one wrote:
      writeString then readString gives the string. */
  lemma StringRoundTrip(s: seq<byte>, rest: seq<byte>)
    requires |s| < 0x8000_0000
    ensures Codec.PrefixedAt(Codec.Prefixed(s) + rest, 0) == Read(Ok(s), |Codec.Prefixed(s)|)
  {
    var data := Codec.Prefixed(s) + rest;
    Codec.HasAtStart(Codec.Prefixed(s), rest);
    Codec.PrefixedRoundTrip(s, data, 0);
  }

  /** writeUInt16 then readUInt16 gives the value. */
  lemma UInt16RoundTrip(v: uint16, rest: seq<byte>)
    ensures Codec.UInt16At(UInt16Bytes(v) + rest, 0) == Read(Ok(v), 2)
  {
    var data := UInt16Bytes(v) + rest;
    Codec.HasAtStart(UInt16Bytes(v), rest);
    Codec.UInt16RoundTrip(v, data, 0);
  }
}
