// mc::utils::FastSerializer (appends to a referenced byte vector) and
// FastDeserializer (reads a referenced byte vector at a cursor).
module FastSerializers {
  import opened Wrappers
  import opened Ints
  import VarInts
  import Codec

  /** FastDeserializer::readVarInt after k groups: the end of the buffer ends the
      loop with the partial value, and a continuation bit on the fifth byte (the
      shift reaching 35) is refused without reading a sixth. */
  function FastLoop(data: seq<byte>, pos: nat, k: nat, acc: uint32): Read<int32>
    requires k <= 4
    decreases |data| - pos
  {
    if pos >= |data| then Read(Ok(AsInt32(acc)), pos)
    else
      var b := data[pos];
      var acc' := AsUInt32(acc + (b % 128) * VarInts.Shift7(k));
      if b < 128 then Read(Ok(AsInt32(acc')), pos + 1)
      else if 7 * (k + 1) >= 32 then Read(Err(VarIntTooBig), pos + 1)
      else FastLoop(data, pos + 1, k + 1, acc')
  }

  function FastVarIntAt(data: seq<byte>, pos: nat): Read<int32>
  {
    FastLoop(data, pos, 0, 0)
  }

  /** FastDeserializer::readString, with a negative length refused. */
  function FastStringAt(data: seq<byte>, pos: nat): Read<seq<byte>>
  {
    var l := FastVarIntAt(data, pos);
    match l.result
    case Err(e) => Read(Err(e), l.next)
    case Ok(len) => if len < 0 then Read(Err(OutOfBounds), l.next) else Codec.BytesAt(data, l.next, len)
  }

  /** Wherever the ReadBuffer loop accepts a VarInt, the FastDeserializer loop reads
      the same value and stops at the same place. */
  lemma {:induction false} FastAgreesOnAccepted(data: seq<byte>, pos: nat, k: nat, acc: uint32)
    requires k <= 4 && VarInts.ReadLoop(data, pos, k, acc).result.Ok?
    ensures FastLoop(data, pos, k, acc) == VarInts.ReadLoop(data, pos, k, acc)
    decreases 4 - k
  {
    var b := data[pos];
    var acc' := AsUInt32(acc + (b % 128) * VarInts.Shift7(k));
    if b >= 128 {
      if k == 4 {
        assert false;
      }
      FastAgreesOnAccepted(data, pos + 1, k + 1, acc');
    }
  }

  lemma FastVarIntRoundTrip(v: int32, data: seq<byte>, pos: nat)
    requires Codec.HasAt(data, pos, VarInts.Encode(v))
    ensures FastVarIntAt(data, pos) == Read(Ok(v), pos + |VarInts.Encode(v)|)
  {
    Codec.VarIntRoundTrip(v, data, pos);
    FastAgreesOnAccepted(data, pos, 0, 0);
  }

  /** writeString then readString gives the string back. */
  lemma FastStringRoundTrip(s: seq<byte>, data: seq<byte>, pos: nat)
    requires |s| < 0x8000_0000 && Codec.HasAt(data, pos, Codec.Prefixed(s))
    ensures FastStringAt(data, pos) == Read(Ok(s), pos + |Codec.Prefixed(s)|)
  {
    var e := VarInts.Encode(|s|);
    Codec.HasAtSplit(data, pos, e, s);
    FastVarIntRoundTrip(|s|, data, pos);
    Codec.BytesAtHas(data, pos + |e|, s);
  }

  /** readString checks `pos_ + length` in size_t, so the int32 length -1 of the
      five bytes FF FF FF FF 0F wraps and passes the check at cursor 5, and the
      string constructor gets an end before its begin. The model refuses it. */
  lemma NegativeLengthPassesCheck()
    ensures var data: seq<byte> := [0xFF, 0xFF, 0xFF, 0xFF, 0x0F];
      && FastVarIntAt(data, 0) == Read(Ok(-1), 5)
      && Codec.EnsureAsWritten(5, |data|, -1)
      && FastStringAt(data, 0) == Read(Err(OutOfBounds), 5)
  {
    var data: seq<byte> := [0xFF, 0xFF, 0xFF, 0xFF, 0x0F];
    Codec.NegativeLengthPassesCheck();
    FastAgreesOnAccepted(data, 0, 0, 0);
  }

  /** The two VarInt readers part ways on malformed input: at the end of the buffer
      FastDeserializer returns what it has where ReadBuffer throws, and it refuses
      five continuation bytes without looking for a sixth. */
  lemma ReadersDiffer()
    ensures FastVarIntAt([], 0) == Read(Ok(0), 0)
    ensures VarInts.At([], 0) == Read(Err(OutOfBounds), 0)
    ensures FastVarIntAt([0x85], 0) == Read(Ok(5), 1)
    ensures VarInts.At([0x85], 0) == Read(Err(OutOfBounds), 1)
    ensures FastVarIntAt([0x80, 0x80, 0x80, 0x80, 0x80], 0) == Read(Err(VarIntTooBig), 5)
    ensures VarInts.At([0x80, 0x80, 0x80, 0x80, 0x80], 0) == Read(Err(OutOfBounds), 5)
  {
    var d: seq<byte> := [0x80, 0x80, 0x80, 0x80, 0x80];
    VarInts.Shift7Values();
    assert FastLoop(d, 4, 4, 0) == Read(Err(VarIntTooBig), 5);
    assert FastLoop(d, 3, 3, 0) == Read(Err(VarIntTooBig), 5);
    assert FastLoop(d, 2, 2, 0) == Read(Err(VarIntTooBig), 5);
    assert FastLoop(d, 1, 1, 0) == Read(Err(VarIntTooBig), 5);
    assert VarInts.ReadLoop(d, 4, 4, 0) == Read(Err(OutOfBounds), 5);
    assert VarInts.ReadLoop(d, 3, 3, 0) == Read(Err(OutOfBounds), 5);
    assert VarInts.ReadLoop(d, 2, 2, 0) == Read(Err(OutOfBounds), 5);
    assert VarInts.ReadLoop(d, 1, 1, 0) == Read(Err(OutOfBounds), 5);
  }

  class FastSerializer {
    var buffer: seq<byte>

    constructor (buffer: seq<byte>)
      ensures this.buffer == buffer
    {
      this.buffer := buffer;
    }

    /** writeIntBE<T>: sizeof(T) bytes, most significant first; byte k is
        static_cast<uint8_t>(value >> 8 * k), byte k of the two's complement pattern. */
    method WriteIntBE(value: int, size: nat)
      requires size == 1 || size == 2 || size == 4 || size == 8
      requires -Pow256(size) <= 2 * value < 2 * Pow256(size)
      modifies this
      ensures buffer == old(buffer) + BE(value % Pow256(size), size)
    {
      Pow256Values();
      var u: nat := value % Pow256(size);
      if size == 1 {
        buffer := buffer + [u];
      } else if size == 2 {
        BE2(u);
        buffer := buffer + [(u / 0x100) % 0x100];
        buffer := buffer + [u % 0x100];
      } else if size == 4 {
        BE4(u);
        buffer := buffer + [(u / 0x100_0000) % 0x100, (u / 0x1_0000) % 0x100];
        buffer := buffer + [(u / 0x100) % 0x100, u % 0x100];
      } else {
        BE8(u);
        var hi, lo := u / TWO_32, u % TWO_32;
        BE4(hi);
        BE4(lo);
        buffer := buffer + [(hi / 0x100_0000) % 0x100, (hi / 0x1_0000) % 0x100];
        buffer := buffer + [(hi / 0x100) % 0x100, hi % 0x100];
        buffer := buffer + [(lo / 0x100_0000) % 0x100, (lo / 0x1_0000) % 0x100];
        buffer := buffer + [(lo / 0x100) % 0x100, lo % 0x100];
      }
    }

    /** writeVarInt: the value as a uint32, seven bits at a time while it is >= 0x80. */
    method WriteVarInt(value: int32)
      modifies this
      ensures buffer == old(buffer) + VarInts.Encode(value)
    {
      var uvalue: nat := AsUInt32(value);
      while uvalue >= 0x80
        invariant buffer + VarInts.Leb128(uvalue) == old(buffer) + VarInts.Encode(value)
        decreases uvalue
      {
        buffer := buffer + [uvalue % 128 + 128];
        uvalue := uvalue / 128;
      }
      buffer := buffer + [uvalue];
    }

    /** writeString: the size cast to int32 as a VarInt, then the bytes. */
    method WriteString(s: seq<byte>)
      modifies this
      ensures buffer == old(buffer) + Codec.Prefixed(s)
    {
      WriteVarInt(Count32(|s|));
      buffer := buffer + s;
    }

    method WriteRaw(s: seq<byte>)
      modifies this
      ensures buffer == old(buffer) + s
    {
      buffer := buffer + s;
    }
  }

  class FastDeserializer {
    const buffer: seq<byte>
    var pos: nat

    ghost predicate Valid()
      reads this
    {
      pos <= |buffer|
    }

    constructor (buffer: seq<byte>)
      ensures Valid() && this.buffer == buffer && pos == 0
    {
      this.buffer := buffer;
      pos := 0;
    }

    /** readIntBE<T>: the sizeof(T) bytes at the cursor as a big-endian bit pattern
        (which T then reinterprets), or a failure with the cursor unmoved. */
    method ReadIntBE(size: nat) returns (r: Result<nat>)
      requires Valid() && (size == 1 || size == 2 || size == 4 || size == 8)
      modifies this
      ensures Valid()
      ensures old(pos) + size > |buffer| ==> r == Err(OutOfBounds) && pos == old(pos)
      ensures old(pos) + size <= |buffer| ==>
        r == Ok(UnBE(buffer[old(pos)..old(pos) + size])) && pos == old(pos) + size
    {
      if pos + size > |buffer| {
        return Err(OutOfBounds);
      }
      var s := buffer[pos..pos + size];
      var value: nat;
      if size == 1 {
        value := s[0];
        assert s[..0] == [];
      } else if size == 2 {
        UnBE2(s);
        value := s[0] as int * 0x100 + s[1] as int;
      } else if size == 4 {
        UnBE4(s);
        value := s[0] as int * 0x100_0000 + s[1] as int * 0x1_0000 + s[2] as int * 0x100 + s[3] as int;
      } else {
        UnBE8(s);
        UnBE4(s[..4]);
        UnBE4(s[4..]);
        value := (s[0] as int * 0x100_0000 + s[1] as int * 0x1_0000 + s[2] as int * 0x100 + s[3] as int) * TWO_32
          + (s[4] as int * 0x100_0000 + s[5] as int * 0x1_0000 + s[6] as int * 0x100 + s[7] as int);
      }
      pos := pos + size;
      r := Ok(value);
    }

    method ReadVarInt() returns (r: Result<int32>)
      requires Valid()
      modifies this
      ensures Valid() && Read(r, pos) == FastVarIntAt(buffer, old(pos))
    {
      var result: uint32 := 0;
      var shift: nat := 0;
      var k: nat := 0;  // shift / 7, the number of groups or-ed in
      while pos < |buffer|
        invariant Valid() && k <= 4 && shift == 7 * k
        invariant FastLoop(buffer, pos, k, result) == FastVarIntAt(buffer, old(pos))
        decreases 4 - k
      {
        var b := buffer[pos];
        pos := pos + 1;
        assert 7 * k == shift;
        result := AsUInt32(result + (b % 128) * VarInts.Shift7(k));
        if b < 128 {
          return Ok(AsInt32(result));
        }
        shift := shift + 7;
        if shift >= 32 {
          return Err(VarIntTooBig);
        }
        k := k + 1;
      }
      r := Ok(AsInt32(result));
    }

    method ReadString() returns (r: Result<seq<byte>>)
      requires Valid()
      modifies this
      ensures Valid() && Read(r, pos) == FastStringAt(buffer, old(pos))
    {
      var length := ReadVarInt();
      if length.Err? {
        return Err(length.error);
      }
      if length.value < 0 || pos + length.value > |buffer| {
        return Err(OutOfBounds);
      }
      r := Ok(buffer[pos..pos + length.value]);
      pos := pos + length.value;
    }

    function Remaining(): (n: nat)
      reads this
      requires Valid()
      ensures pos + n == |buffer|
    {
      |buffer| - pos
    }
  }
}
