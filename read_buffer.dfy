// mc::buffer::ReadBuffer: an immutable byte array and a read cursor that every
// read advances.
module ReadBuffers {
  import opened Wrappers
  import opened Ints
  import VarInts
  import Codec

  class ReadBuffer {
    const data: seq<byte>
    var pos: nat

    ghost predicate Valid()
      reads this
    {
      pos <= |data|
    }

    constructor (data: seq<byte>)
      ensures Valid() && this.data == data && pos == 0
    {
      this.data := data;
      pos := 0;
    }

    predicate Ensure(len: nat)
      reads this
    {
      Codec.Ensure(data, pos, len)
    }

    /** remaining(): never negative, since the cursor never passes the end. */
    function Remaining(): (n: nat)
      reads this
      requires Valid()
      ensures pos + n == |data|
    {
      |data| - pos
    }

    /** copyRemaining(): the unread suffix, without moving the cursor. */
    method CopyRemaining() returns (r: seq<byte>)
      requires Valid()
      ensures data[..pos] + r == data && |r| == Remaining()
    {
      r := data[pos..];
    }

    method ReadBytes(len: nat) returns (r: Result<seq<byte>>)
      requires Valid()
      modifies this
      ensures Valid() && Read(r, pos) == Codec.BytesAt(data, old(pos), len)
    {
      if !Ensure(len) {
        return Err(OutOfBounds);
      }
      r := Ok(data[pos..pos + len]);
      pos := pos + len;
    }

    method ReadByte() returns (r: Result<byte>)
      requires Valid()
      modifies this
      ensures Valid() && Read(r, pos) == Codec.ByteAt(data, old(pos))
    {
      if !Ensure(1) {
        return Err(OutOfBounds);
      }
      r := Ok(data[pos]);
      pos := pos + 1;
    }

    method ReadInt8() returns (r: Result<int8>)
      requires Valid()
      modifies this
      ensures Valid() && Read(r, pos) == Codec.Int8At(data, old(pos))
    {
      if !Ensure(1) {
        return Err(OutOfBounds);
      }
      r := Ok(AsInt8(data[pos]));
      pos := pos + 1;
    }

    method ReadBool() returns (r: Result<bool>)
      requires Valid()
      modifies this
      ensures Valid() && Read(r, pos) == Codec.BoolAt(data, old(pos))
    {
      var b := ReadByte();
      r := if b.Err? then Err(b.error) else Ok(b.value != 0);
    }

    method ReadInt16() returns (r: Result<int16>)
      requires Valid()
      modifies this
      ensures Valid() && Read(r, pos) == Codec.Int16At(data, old(pos))
    {
      if !Ensure(2) {
        return Err(OutOfBounds);
      }
      var v := data[pos] as int * 0x100 + data[pos + 1] as int;
      UnBE2(data[pos..pos + 2]);
      r := Ok(AsInt16(v));
      pos := pos + 2;
    }

    method ReadUInt16() returns (r: Result<uint16>)
      requires Valid()
      modifies this
      ensures Valid() && Read(r, pos) == Codec.UInt16At(data, old(pos))
    {
      if !Ensure(2) {
        return Err(OutOfBounds);
      }
      var v := data[pos] as int * 0x100 + data[pos + 1] as int;
      UnBE2(data[pos..pos + 2]);
      r := Ok(v);
      pos := pos + 2;
    }

    /** The four bytes at the cursor, most significant first. */
    method ReadBE4() returns (v: uint32)
      requires Valid() && Ensure(4)
      ensures v == UnBE(data[pos..pos + 4])
    {
      v := data[pos] as int * 0x100_0000 + data[pos + 1] as int * 0x1_0000
        + data[pos + 2] as int * 0x100 + data[pos + 3] as int;
      UnBE4(data[pos..pos + 4]);
    }

    method ReadInt32() returns (r: Result<int32>)
      requires Valid()
      modifies this
      ensures Valid() && Read(r, pos) == Codec.Int32At(data, old(pos))
    {
      if !Ensure(4) {
        return Err(OutOfBounds);
      }
      var v := ReadBE4();
      r := Ok(AsInt32(v));
      pos := pos + 4;
    }

    method ReadUInt8() returns (r: Result<byte>)
      requires Valid()
      modifies this
      ensures Valid() && Read(r, pos) == Codec.ByteAt(data, old(pos))
    {
      r := ReadByte();
    }

    method ReadUInt32() returns (r: Result<uint32>)
      requires Valid()
      modifies this
      ensures Valid() && Read(r, pos) == Codec.UInt32At(data, old(pos))
    {
      if !Ensure(4) {
        return Err(OutOfBounds);
      }
      var v := ReadBE4();
      r := Ok(v);
      pos := pos + 4;
    }

    /** readVarInt: the do-while that or-s (b & 0x7F) << 7 * numRead into the result. */
    method ReadVarInt() returns (r: Result<int32>)
      requires Valid()
      modifies this
      ensures Valid() && Read(r, pos) == VarInts.At(data, old(pos))
    {
      var result: uint32 := 0;
      var numRead: nat := 0;
      while true
        invariant Valid() && numRead <= 5
        invariant VarInts.ReadLoop(data, pos, numRead, result) == VarInts.At(data, old(pos))
        decreases 5 - numRead
      {
        if !Ensure(1) {
          return Err(OutOfBounds);
        }
        var b := data[pos];
        pos := pos + 1;
        result := AsUInt32(result + (b % 128) * VarInts.Shift7(numRead));
        numRead := numRead + 1;
        if numRead > 5 {
          return Err(VarIntTooBig);
        }
        if b < 128 {
          return Ok(AsInt32(result));
        }
      }
    }

    method ReadLong() returns (r: Result<int64>)
      requires Valid()
      modifies this
      ensures Valid() && Read(r, pos) == Codec.Int64At(data, old(pos))
    {
      if !Ensure(8) {
        return Err(OutOfBounds);
      }
      Pow256Values();
      var s := data[pos..pos + 8];
      var hi := ReadBE4();
      pos := pos + 4;
      var lo := ReadBE4();
      pos := pos + 4;
      UnBE8(s);
      assert s[..4] == data[old(pos)..old(pos) + 4] && s[4..] == data[old(pos) + 4..old(pos) + 8];
      r := Ok(AsInt64(hi * TWO_32 + lo));
    }

    /** readString: a VarInt length, then that many bytes. */
    method ReadString() returns (r: Result<seq<byte>>)
      requires Valid()
      modifies this
      ensures Valid() && Read(r, pos) == Codec.PrefixedAt(data, old(pos))
    {
      var len := ReadVarInt();
      if len.Err? {
        return Err(len.error);
      }
      if len.value < 0 {
        return Err(OutOfBounds);
      }
      r := ReadBytes(len.value);
    }

    /** readByteArray: readBytes(readVarInt()). */
    method ReadByteArray() returns (r: Result<seq<byte>>)
      requires Valid()
      modifies this
      ensures Valid() && Read(r, pos) == Codec.PrefixedAt(data, old(pos))
    {
      r := ReadString();
    }
  }
}
