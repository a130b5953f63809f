// The read side of the NBT tag classes (src/datatypes/nbt/tags) and of
// NBTReader, as methods over a ReadBuffer: NBTCompound and NBTList are classes
// whose read() rebuilds their contents in place, the other tags' reads are
// the methods ReadLeaf dispatches to. Each read is proved to consume exactly
// what the decoding function of module Nbt of the same name consumes, and to
// give the same tag.
module NbtTags {
  import opened Wrappers
  import opened Ints
  import opened Nbt
  import ReadBuffers

  /** NBTString::read, and the name reads of NBTCompound::read and
      readNamedTag: a VarInt length, then that many bytes when positive. */
  method ReadName(buf: ReadBuffers.ReadBuffer) returns (r: Result<seq<byte>>)
    requires buf.Valid()
    modifies buf
    ensures buf.Valid() && Read(r, buf.pos) == NameAt(buf.data, old(buf.pos))
  {
    var len := buf.ReadVarInt();
    if len.Err? {
      return Err(len.error);
    }
    if len.value > 0 {
      r := buf.ReadBytes(len.value);
    } else {
      r := Ok([]);
    }
  }

  /** The readInt32 length of the array reads, which resize() refuses when
      negative. */
  method ReadCount(buf: ReadBuffers.ReadBuffer) returns (r: Result<nat>)
    requires buf.Valid()
    modifies buf
    ensures buf.Valid() && Read(r, buf.pos) == CountAt(buf.data, old(buf.pos))
  {
    var n := buf.ReadInt32();
    if n.Err? {
      return Err(n.error);
    }
    if n.value < 0 {
      return Err(LengthError);
    }
    r := Ok(n.value);
  }

  /** The element loop of NBTByteArray::read: value resized to n, then filled by index. */
  method ReadInt8s(buf: ReadBuffers.ReadBuffer, n: nat) returns (r: Result<seq<int8>>)
    requires buf.Valid()
    modifies buf
    ensures buf.Valid() && Read(r, buf.pos) == Int8sAt(buf.data, old(buf.pos), n, [])
  {
    var a := new int8[n];
    ghost var left := n;
    for i := 0 to n
      invariant buf.Valid() && left == n - i
      invariant Int8sAt(buf.data, buf.pos, left, a[..i]) == Int8sAt(buf.data, old(buf.pos), n, [])
    {
      var x := buf.ReadInt8();
      if x.Err? {
        return Err(x.error);
      }
      a[i] := x.value;
      assert a[..i + 1] == a[..i] + [x.value];
      left := left - 1;
    }
    assert a[..n] == a[..];
    r := Ok(a[..]);
  }

  /** The element loop of NBTIntArray::read. */
  method ReadInt32s(buf: ReadBuffers.ReadBuffer, n: nat) returns (r: Result<seq<int32>>)
    requires buf.Valid()
    modifies buf
    ensures buf.Valid() && Read(r, buf.pos) == Int32sAt(buf.data, old(buf.pos), n, [])
  {
    var a := new int32[n];
    ghost var left := n;
    for i := 0 to n
      invariant buf.Valid() && left == n - i
      invariant Int32sAt(buf.data, buf.pos, left, a[..i]) == Int32sAt(buf.data, old(buf.pos), n, [])
    {
      var x := buf.ReadInt32();
      if x.Err? {
        return Err(x.error);
      }
      a[i] := x.value;
      assert a[..i + 1] == a[..i] + [x.value];
      left := left - 1;
    }
    assert a[..n] == a[..];
    r := Ok(a[..]);
  }

  /** The element loop of NBTLongArray::read. */
  method ReadInt64s(buf: ReadBuffers.ReadBuffer, n: nat) returns (r: Result<seq<int64>>)
    requires buf.Valid()
    modifies buf
    ensures buf.Valid() && Read(r, buf.pos) == Int64sAt(buf.data, old(buf.pos), n, [])
  {
    var a := new int64[n];
    ghost var left := n;
    for i := 0 to n
      invariant buf.Valid() && left == n - i
      invariant Int64sAt(buf.data, buf.pos, left, a[..i]) == Int64sAt(buf.data, old(buf.pos), n, [])
    {
      var x := buf.ReadLong();
      if x.Err? {
        return Err(x.error);
      }
      a[i] := x.value;
      assert a[..i + 1] == a[..i] + [x.value];
      left := left - 1;
    }
    assert a[..n] == a[..];
    r := Ok(a[..]);
  }

  /** The reads of End, the numbers and String. Float and Double take the
      big-endian bit pattern their serialize writes. */
  method ReadScalar(buf: ReadBuffers.ReadBuffer, t: byte) returns (r: Result<Tag>)
    requires buf.Valid() && t <= STRING && t != BYTE_ARRAY
    modifies buf
    ensures buf.Valid() && Read(r, buf.pos) == ScalarAt(t, buf.data, old(buf.pos))
  {
    if t == END {
      r := Ok(EndTag);
    } else if t == BYTE {
      var v := buf.ReadInt8();
      r := if v.Err? then Err(v.error) else Ok(ByteTag(v.value));
    } else if t == SHORT {
      var v := buf.ReadInt16();
      r := if v.Err? then Err(v.error) else Ok(ShortTag(v.value));
    } else if t == INT {
      var v := buf.ReadInt32();
      r := if v.Err? then Err(v.error) else Ok(IntTag(v.value));
    } else if t == LONG {
      var v := buf.ReadLong();
      r := if v.Err? then Err(v.error) else Ok(LongTag(v.value));
    } else if t == FLOAT {
      var v := buf.ReadUInt32();
      r := if v.Err? then Err(v.error) else Ok(FloatTag(v.value));
    } else if t == DOUBLE {
      var b := buf.ReadBytes(8);
      if b.Err? {
        return Err(b.error);
      }
      Pow256Values();
      r := Ok(DoubleTag(UnBE(b.value)));
    } else {
      var s := ReadName(buf);
      r := if s.Err? then Err(s.error) else Ok(StringTag(s.value));
    }
  }

  /** NBTByteArray, NBTIntArray and NBTLongArray::read. */
  method ReadArray(buf: ReadBuffers.ReadBuffer, t: byte) returns (r: Result<Tag>)
    requires buf.Valid() && (t == BYTE_ARRAY || t == INT_ARRAY || t == LONG_ARRAY)
    modifies buf
    ensures buf.Valid() && Read(r, buf.pos) == ArrayAt(t, buf.data, old(buf.pos))
  {
    var n := ReadCount(buf);
    if n.Err? {
      return Err(n.error);
    }
    if t == BYTE_ARRAY {
      var vs := ReadInt8s(buf, n.value);
      r := if vs.Err? then Err(vs.error) else Ok(ByteArrayTag(vs.value));
    } else if t == INT_ARRAY {
      var vs := ReadInt32s(buf, n.value);
      r := if vs.Err? then Err(vs.error) else Ok(IntArrayTag(vs.value));
    } else {
      var vs := ReadInt64s(buf, n.value);
      r := if vs.Err? then Err(vs.error) else Ok(LongArrayTag(vs.value));
    }
  }

  /** The read of a tag that is neither a list nor a compound. */
  method ReadLeaf(buf: ReadBuffers.ReadBuffer, t: byte) returns (r: Result<Tag>)
    requires buf.Valid() && t <= LONG_ARRAY && t != LIST && t != COMPOUND
    modifies buf
    ensures buf.Valid() && Read(r, buf.pos) == LeafAt(t, buf.data, old(buf.pos))
  {
    if t == BYTE_ARRAY || t == INT_ARRAY || t == LONG_ARRAY {
      r := ReadArray(buf, t);
    } else {
      r := ReadScalar(buf, t);
    }
  }

  /** tag->read(in) on the tag createTag(t) makes: a list and a compound are
      built as objects and read in place, and their contents are the tag. */
  method ReadPayload(buf: ReadBuffers.ReadBuffer, t: byte) returns (r: Result<Tag>)
    requires buf.Valid() && t <= LONG_ARRAY
    modifies buf
    ensures buf.Valid() && Read(r, buf.pos) == PayloadAt(t, buf.data, old(buf.pos))
    decreases |buf.data| - buf.pos, 1
  {
    if t == LIST {
      var l := new NbtList(END);
      var s := l.Read(buf);
      r := if s.Err? then Err(s.error) else Ok(ListTag(l.listType, l.value));
    } else if t == COMPOUND {
      var c := new NbtCompound();
      var s := c.Read(buf);
      r := if s.Err? then Err(s.error) else Ok(CompoundTag(c.value));
    } else {
      r := ReadLeaf(buf, t);
    }
  }

  /** NBTReader::readTag: nothing read, and no tag, for a type createTag does not know. */
  method ReadTag(buf: ReadBuffers.ReadBuffer, t: byte) returns (r: Result<Option<Tag>>)
    requires buf.Valid()
    modifies buf
    ensures buf.Valid() && Read(r, buf.pos) == TagAt(t, buf.data, old(buf.pos))
  {
    var tag := CreateTag(t);
    if tag.None? {
      return Ok(None);
    }
    var x := ReadPayload(buf, t);
    r := if x.Err? then Err(x.error) else Ok(Some(x.value));
  }

  /** NBTReader::readNamedTag: End gives ("", End) with no name read;
      otherwise the name, then readTag of the type. */
  method ReadNamedTag(buf: ReadBuffers.ReadBuffer) returns (r: Result<(seq<byte>, Option<Tag>)>)
    requires buf.Valid()
    modifies buf
    ensures buf.Valid() && Read(r, buf.pos) == NamedTagAt(buf.data, old(buf.pos))
  {
    var t := buf.ReadUInt8();
    if t.Err? {
      return Err(t.error);
    }
    if t.value == END {
      return Ok(([], Some(EndTag)));
    }
    var name := ReadName(buf);
    if name.Err? {
      return Err(name.error);
    }
    var x := ReadTag(buf, t.value);
    r := if x.Err? then Err(x.error) else Ok((name.value, x.value));
  }

  /** The bytes tag->serialize(out) appends, and what reading them back gives. */
  lemma SerializedReadsBack(t: Tag)
    ensures WellFormed(t) ==> PayloadAt(TypeId(t), Payload(t), 0).result == Ok(t)
  {
    if WellFormed(t) {
      FromStart(t);
    }
  }

  /** NBTCompound: the std::map from names to tags, as its entries in
      ascending name order. */
  class NbtCompound {
    var value: seq<Entry>

    ghost predicate Valid()
      reads this
    {
      Ascending(value)
    }

    constructor ()
      ensures Valid() && value == []
    {
      value := [];
    }

    /** serialize(out): per entry, in name order, its type byte, VarInt name
        length, name and payload; then End. A well-formed compound reads back
        as itself. */
    function Serialize(): (b: seq<byte>)
      reads this
      ensures b == EntriesPayload(value) + [END]
      ensures WellFormed(CompoundTag(value)) ==> PayloadAt(COMPOUND, b, 0).result == Ok(CompoundTag(value))
    {
      SerializedReadsBack(CompoundTag(value));
      Payload(CompoundTag(value))
    }

    /** read(in): clear, then entries until an End type byte; an unknown type
        stores nothing, and a repeated name keeps the last tag. On success the
        contents are what EntriesAt decodes; on a failure the exception leaves
        the entries read so far. */
    method Read(buf: ReadBuffers.ReadBuffer) returns (s: Result<()>)
      requires buf.Valid()
      modifies this, buf
      ensures buf.Valid() && Valid()
      ensures Wrappers.Read(if s.Ok? then Ok(value) else Err(s.error), buf.pos) == EntriesAt(buf.data, old(buf.pos), [])
      decreases |buf.data| - buf.pos, 0
    {
      value := [];
      ghost var start := buf.pos;
      while true
        invariant buf.Valid() && start <= buf.pos && Ascending(value)
        invariant EntriesAt(buf.data, buf.pos, value) == EntriesAt(buf.data, start, [])
        decreases |buf.data| - buf.pos
      {
        var ty := buf.ReadUInt8();
        if ty.Err? {
          return Err(ty.error);
        }
        if ty.value == END {
          return Ok(());
        }
        var name := ReadName(buf);
        if name.Err? {
          return Err(name.error);
        }
        var tag := CreateTag(ty.value);
        if tag.Some? {
          var x := ReadPayload(buf, ty.value);
          if x.Err? {
            return Err(x.error);
          }
          InsertAscending(value, name.value, x.value);
          value := Insert(value, name.value, x.value);
        }
      }
    }

    /** getTag(name): the tag under name, or nothing (nullptr); a tag exactly
        when hasTag(name). */
    function GetTag(name: seq<byte>): (r: Option<Tag>)
      reads this
      ensures r.Some? <==> HasTag(name)
      ensures r.Some? ==> Entry(name, r.value) in value
    {
      LookupHas(value, name);
      LookupFound(value, name);
      Lookup(value, name)
    }

    /** hasTag(name): find(name) != end(). */
    predicate HasTag(name: seq<byte>)
      reads this
    {
      Has(value, name)
    }

    /** setTag(name, tag): value[name] = tag. The name now gives the tag, every
        other name what it gave before, and the names stay ascending. */
    method SetTag(name: seq<byte>, t: Tag)
      requires Valid()
      modifies this
      ensures Valid() && value == Insert(old(value), name, t)
      ensures forall other :: Lookup(value, other) == if other == name then Some(t) else Lookup(old(value), other)
    {
      forall other
        ensures Lookup(Insert(value, name, t), other) == if other == name then Some(t) else Lookup(value, other)
      {
        LookupInsert(value, name, t, other);
      }
      InsertAscending(value, name, t);
      value := Insert(value, name, t);
    }

    /** removeTag(name): value.erase(name). The name now gives nothing, every
        other name what it gave before. */
    method RemoveTag(name: seq<byte>)
      requires Valid()
      modifies this
      ensures Valid() && value == Remove(old(value), name)
      ensures forall other :: Lookup(value, other) == if other == name then None else Lookup(old(value), other)
    {
      forall other
        ensures Lookup(Remove(value, name), other) == if other == name then None else Lookup(value, other)
      {
        LookupRemove(value, name, other);
      }
      RemoveAscending(value, name);
      value := Remove(value, name);
    }

    /** clone(): a new compound with a deep copy of every entry. Tags are
        values here, so the copy is the same sequence. */
    method Clone() returns (c: NbtCompound)
      requires Valid()
      ensures fresh(c) && c.Valid() && c.value == value
    {
      c := new NbtCompound();
      c.value := value;
    }
  }

  /** NBTList: the element type and the elements. */
  class NbtList {
    var listType: byte
    var value: seq<Tag>

    /** NBTList(type = End). */
    constructor (t: byte)
      ensures listType == t && value == []
    {
      listType := t;
      value := [];
    }

    /** serialize(out): the element type, the Int32 count, the headerless
        payloads. A well-formed list reads back as itself. */
    function Serialize(): (b: seq<byte>)
      reads this
      ensures b == [listType] + Int32Bytes(Count32(|value|)) + ItemsPayload(value)
      ensures WellFormed(ListTag(listType, value)) ==> PayloadAt(LIST, b, 0).result == Ok(ListTag(listType, value))
    {
      SerializedReadsBack(ListTag(listType, value));
      Payload(ListTag(listType, value))
    }

    /** read(in): listType from readUInt8, the Int32 length (a negative one
        refused by reserve() after the clear), then length rounds that read one
        element each when createTag knows the type. */
    method Read(buf: ReadBuffers.ReadBuffer) returns (s: Result<()>)
      requires buf.Valid()
      modifies this, buf
      ensures buf.Valid()
      ensures Wrappers.Read(if s.Ok? then Ok(ListTag(listType, value)) else Err(s.error), buf.pos) == ListAt(buf.data, old(buf.pos))
      decreases |buf.data| - buf.pos, 0
    {
      ghost var start := buf.pos;
      var lt := buf.ReadUInt8();
      if lt.Err? {
        return Err(lt.error);
      }
      listType := lt.value;
      var length := buf.ReadInt32();
      if length.Err? {
        return Err(length.error);
      }
      value := [];
      if length.value < 0 {
        return Err(LengthError);
      }
      ghost var q := buf.pos;
      ghost var left: nat := length.value;
      for i := 0 to length.value
        invariant buf.Valid() && q <= buf.pos && left == length.value - i && listType == lt.value
        invariant ItemsAt(listType, buf.data, buf.pos, left, value) == ItemsAt(listType, buf.data, q, length.value, [])
      {
        var tag := CreateTag(listType);
        if tag.Some? {
          var x := ReadPayload(buf, listType);
          if x.Err? {
            return Err(x.error);
          }
          value := value + [x.value];
        }
        left := left - 1;
      }
      s := Ok(());
    }

    /** setListType(type). */
    method SetListType(t: byte)
      modifies this
      ensures listType == t && value == old(value)
    {
      listType := t;
    }

    /** addTag(tag): push_back, whatever the tag's type. */
    method AddTag(t: Tag)
      modifies this
      ensures value == old(value) + [t] && listType == old(listType)
    {
      value := value + [t];
    }

    /** getTag(index): the element at index, or nothing (nullptr) past the end. */
    function GetTag(index: nat): (r: Option<Tag>)
      reads this
      ensures r.Some? <==> index < |value|
      ensures r.Some? ==> r.value == value[index]
    {
      if index < |value| then Some(value[index]) else None
    }

    /** clone(): a new list of the same type with a copy of every element. */
    method Clone() returns (c: NbtList)
      ensures fresh(c) && c.listType == listType && c.value == value
    {
      c := new NbtList(listType);
      c.value := value;
    }
  }
}
