// The NBT tags of src/datatypes/nbt: the tag tree as a value, what each tag's
// serialize writes, what each tag's read takes from a buffer at a cursor, the
// factory createTag, the ordered map of NBTCompound, and NBTReader/NBTWriter.
module Nbt {
  import opened Wrappers
  import opened Ints
  import VarInts
  import Codec

  // NBTTagType

  const END: byte := 0
  const BYTE: byte := 1
  const SHORT: byte := 2
  const INT: byte := 3
  const LONG: byte := 4
  const FLOAT: byte := 5
  const DOUBLE: byte := 6
  const BYTE_ARRAY: byte := 7
  const STRING: byte := 8
  const LIST: byte := 9
  const COMPOUND: byte := 10
  const INT_ARRAY: byte := 11
  const LONG_ARRAY: byte := 12

  /** A tag and what it holds. Float and Double hold the bit pattern that
      writeFloat and writeDouble copy out of the value; a List keeps its
      element type byte as read, whatever it is; a Compound holds its entries
      in the order of its std::map, ascending by name. */
  datatype Tag =
    | EndTag
    | ByteTag(b: int8)
    | ShortTag(s: int16)
    | IntTag(i: int32)
    | LongTag(l: int64)
    | FloatTag(bits: uint32)
    | DoubleTag(bits64: uint64)
    | ByteArrayTag(bytes: seq<int8>)
    | StringTag(text: seq<byte>)
    | ListTag(listType: byte, items: seq<Tag>)
    | CompoundTag(entries: seq<Entry>)
    | IntArrayTag(ints: seq<int32>)
    | LongArrayTag(longs: seq<int64>)

  /** One (name, tag) pair of a compound's map. */
  datatype Entry = Entry(name: seq<byte>, tag: Tag)

  /** getType() of each tag class. */
  function TypeId(t: Tag): (b: byte)
    ensures b <= LONG_ARRAY
    ensures b == END <==> t.EndTag?
  {
    match t
    case EndTag => END
    case ByteTag(_) => BYTE
    case ShortTag(_) => SHORT
    case IntTag(_) => INT
    case LongTag(_) => LONG
    case FloatTag(_) => FLOAT
    case DoubleTag(_) => DOUBLE
    case ByteArrayTag(_) => BYTE_ARRAY
    case StringTag(_) => STRING
    case ListTag(_, _) => LIST
    case CompoundTag(_) => COMPOUND
    case IntArrayTag(_) => INT_ARRAY
    case LongArrayTag(_) => LONG_ARRAY
  }

  /** createTag: a default-constructed tag of each of the thirteen types, and
      nothing (nullptr) for any other type byte. */
  function CreateTag(t: byte): (r: Option<Tag>)
    ensures r.Some? <==> t <= LONG_ARRAY
    ensures r.Some? ==> TypeId(r.value) == t
  {
    if t == END then Some(EndTag)
    else if t == BYTE then Some(ByteTag(0))
    else if t == SHORT then Some(ShortTag(0))
    else if t == INT then Some(IntTag(0))
    else if t == LONG then Some(LongTag(0))
    else if t == FLOAT then Some(FloatTag(0))
    else if t == DOUBLE then Some(DoubleTag(0))
    else if t == BYTE_ARRAY then Some(ByteArrayTag([]))
    else if t == STRING then Some(StringTag([]))
    else if t == LIST then Some(ListTag(END, []))
    else if t == COMPOUND then Some(CompoundTag([]))
    else if t == INT_ARRAY then Some(IntArrayTag([]))
    else if t == LONG_ARRAY then Some(LongArrayTag([]))
    else None
  }

  // serialize

  /** The layout of an NBT string and of every tag name: the length as a
      VarInt, then the bytes, which writeRaw is not called for when empty. */
  function NameBytes(s: seq<byte>): seq<byte>
  {
    VarInts.Encode(Count32(|s|)) + s
  }

  function Int8sBytes(vs: seq<int8>): seq<byte>
  {
    if vs == [] then [] else [(vs[0] as int) % 256] + Int8sBytes(vs[1..])
  }

  function Int32sBytes(vs: seq<int32>): seq<byte>
  {
    if vs == [] then [] else Int32Bytes(vs[0]) + Int32sBytes(vs[1..])
  }

  function Int64sBytes(vs: seq<int64>): seq<byte>
  {
    if vs == [] then [] else Int64Bytes(vs[0]) + Int64sBytes(vs[1..])
  }

  /** tag->serialize(out): the payload, without the type byte and the name. */
  function Payload(t: Tag): seq<byte>
  {
    match t
    case EndTag => []
    case ByteTag(v) => [(v as int) % 256]
    case ShortTag(v) => Int16Bytes(v)
    case IntTag(v) => Int32Bytes(v)
    case LongTag(v) => Int64Bytes(v)
    case FloatTag(bits) => UInt32Bytes(bits)
    case DoubleTag(bits) => BE(bits, 8)
    case ByteArrayTag(vs) => Int32Bytes(Count32(|vs|)) + Int8sBytes(vs)
    case StringTag(s) => NameBytes(s)
    case ListTag(lt, items) => [lt] + Int32Bytes(Count32(|items|)) + ItemsPayload(items)
    case CompoundTag(es) => EntriesPayload(es) + [END]
    case IntArrayTag(vs) => Int32Bytes(Count32(|vs|)) + Int32sBytes(vs)
    case LongArrayTag(vs) => Int32Bytes(Count32(|vs|)) + Int64sBytes(vs)
  }

  /** The elements of a list: their payloads one after the other, headerless. */
  function ItemsPayload(items: seq<Tag>): seq<byte>
  {
    if items == [] then [] else Payload(items[0]) + ItemsPayload(items[1..])
  }

  /** One entry of a compound: type byte, name, payload. */
  function EntryBytes(e: Entry): seq<byte>
  {
    [TypeId(e.tag)] + NameBytes(e.name) + Payload(e.tag)
  }

  function EntriesPayload(es: seq<Entry>): seq<byte>
  {
    if es == [] then [] else EntryBytes(es[0]) + EntriesPayload(es[1..])
  }

  /** NBTWriter::writeNamedTag: the type byte, and for any tag but End its
      name and payload. */
  function NamedTagBytes(name: seq<byte>, t: Tag): seq<byte>
  {
    [TypeId(t)] + if t.EndTag? then [] else NameBytes(name) + Payload(t)
  }

  // read

  /** A read whose value becomes a tag. */
  function Lift<T>(r: Read<T>, f: T -> Tag): (s: Read<Tag>)
    ensures s.next == r.next && (s.result.Ok? <==> r.result.Ok?)
    ensures r.result.Ok? ==> s.result.value == f(r.result.value)
  {
    match r.result
    case Ok(v) => Read(Ok(f(v)), r.next)
    case Err(e) => Read(Err(e), r.next)
  }

  /** NBTString::read, and the name reads of the compound and of readNamedTag:
      a VarInt length, then that many bytes when it is positive; a length of
      zero or less is the empty string and reads nothing more. */
  function NameAt(data: seq<byte>, pos: nat): (r: Read<seq<byte>>)
    requires pos <= |data|
    ensures pos <= r.next <= |data|
  {
    VarInts.ReadLoopNext(data, pos, 0, 0);
    var l := VarInts.At(data, pos);
    match l.result
    case Err(e) => Read(Err(e), l.next)
    case Ok(len) => if len > 0 then Codec.BytesAt(data, l.next, len) else Read(Ok([]), l.next)
  }

  /** The Int32 count of an array or a list, which resize() and reserve()
      refuse with std::length_error when it is negative. */
  function CountAt(data: seq<byte>, pos: nat): (r: Read<nat>)
    requires pos <= |data|
    ensures pos <= r.next <= |data|
    ensures r.result.Ok? ==> r.next == pos + 4
  {
    var n := Codec.Int32At(data, pos);
    if n.result.Err? then Read(Err(n.result.error), n.next)
    else if n.result.value < 0 then Read(Err(LengthError), n.next)
    else Read(Ok(n.result.value), n.next)
  }

  /** The element loops of the array reads, after the elements in acc: n more
      readInt8, readInt32 or readLong calls, stopping at the first failure. */
  function Int8sAt(data: seq<byte>, pos: nat, n: nat, acc: seq<int8>): (r: Read<seq<int8>>)
    requires pos <= |data|
    ensures pos <= r.next <= |data|
    decreases n
  {
    if n == 0 then Read(Ok(acc), pos)
    else
      var x := Codec.Int8At(data, pos);
      if x.result.Err? then Read(Err(x.result.error), x.next)
      else Int8sAt(data, x.next, n - 1, acc + [x.result.value])
  }

  function Int32sAt(data: seq<byte>, pos: nat, n: nat, acc: seq<int32>): (r: Read<seq<int32>>)
    requires pos <= |data|
    ensures pos <= r.next <= |data|
    decreases n
  {
    if n == 0 then Read(Ok(acc), pos)
    else
      var x := Codec.Int32At(data, pos);
      if x.result.Err? then Read(Err(x.result.error), x.next)
      else Int32sAt(data, x.next, n - 1, acc + [x.result.value])
  }

  function Int64sAt(data: seq<byte>, pos: nat, n: nat, acc: seq<int64>): (r: Read<seq<int64>>)
    requires pos <= |data|
    ensures pos <= r.next <= |data|
    decreases n
  {
    if n == 0 then Read(Ok(acc), pos)
    else
      var x := Codec.Int64At(data, pos);
      if x.result.Err? then Read(Err(x.result.error), x.next)
      else Int64sAt(data, x.next, n - 1, acc + [x.result.value])
  }

  /** readDouble, taken as the big-endian bit pattern writeDouble writes; the
      host-order copy of read<double>() is HostOrderAt. */
  function Bits64At(data: seq<byte>, pos: nat): (r: Read<uint64>)
    requires pos <= |data|
    ensures pos <= r.next <= |data|
  {
    var b := Codec.BytesAt(data, pos, 8);
    if b.result.Err? then Read(Err(b.result.error), b.next)
    else
      Pow256Values();
      Read(Ok(UnBE(b.result.value)), b.next)
  }

  /** The read of a tag whose type is neither List nor Compound. */
  function LeafAt(t: byte, data: seq<byte>, pos: nat): (r: Read<Tag>)
    requires t <= LONG_ARRAY && t != LIST && t != COMPOUND && pos <= |data|
    ensures pos <= r.next <= |data|
    ensures r.result.Ok? ==> TypeId(r.result.value) == t
  {
    if t == BYTE_ARRAY || t == INT_ARRAY || t == LONG_ARRAY then ArrayAt(t, data, pos)
    else ScalarAt(t, data, pos)
  }

  /** The reads of End, the numbers, and String. */
  function ScalarAt(t: byte, data: seq<byte>, pos: nat): (r: Read<Tag>)
    requires t <= STRING && t != BYTE_ARRAY && pos <= |data|
    ensures pos <= r.next <= |data|
    ensures r.result.Ok? ==> TypeId(r.result.value) == t
  {
    Codec.ReadsInside(data, pos);
    if t == END then Read(Ok(EndTag), pos)
    else if t == BYTE then Lift(Codec.Int8At(data, pos), v => ByteTag(v))
    else if t == SHORT then Lift(Codec.Int16At(data, pos), v => ShortTag(v))
    else if t == INT then Lift(Codec.Int32At(data, pos), v => IntTag(v))
    else if t == LONG then Lift(Codec.Int64At(data, pos), v => LongTag(v))
    else if t == FLOAT then Lift(Codec.UInt32At(data, pos), v => FloatTag(v))
    else if t == DOUBLE then Lift(Bits64At(data, pos), v => DoubleTag(v))
    else Lift(NameAt(data, pos), s => StringTag(s))
  }

  /** The array reads: the count, then that many elements. */
  function ArrayAt(t: byte, data: seq<byte>, pos: nat): (r: Read<Tag>)
    requires (t == BYTE_ARRAY || t == INT_ARRAY || t == LONG_ARRAY) && pos <= |data|
    ensures pos <= r.next <= |data|
    ensures r.result.Ok? ==> TypeId(r.result.value) == t
  {
    var n := CountAt(data, pos);
    if n.result.Err? then Read(Err(n.result.error), n.next)
    else if t == BYTE_ARRAY then Lift(Int8sAt(data, n.next, n.result.value, []), vs => ByteArrayTag(vs))
    else if t == INT_ARRAY then Lift(Int32sAt(data, n.next, n.result.value, []), vs => IntArrayTag(vs))
    else Lift(Int64sAt(data, n.next, n.result.value, []), vs => LongArrayTag(vs))
  }

  /** tag->read(in) for the tag createTag(t) makes. */
  function PayloadAt(t: byte, data: seq<byte>, pos: nat): (r: Read<Tag>)
    requires t <= LONG_ARRAY && pos <= |data|
    ensures pos <= r.next <= |data|
    ensures r.result.Ok? ==> TypeId(r.result.value) == t
    decreases |data| - pos, 1, 0
  {
    if t == LIST then ListAt(data, pos)
    else if t == COMPOUND then Lift(EntriesAt(data, pos, []), es => CompoundTag(es))
    else LeafAt(t, data, pos)
  }

  /** NBTList::read: the element type byte, the Int32 length, then length
      rounds, each reading one element when createTag knows the type and
      skipping the round otherwise. */
  function ListAt(data: seq<byte>, pos: nat): (r: Read<Tag>)
    requires pos <= |data|
    ensures pos <= r.next <= |data|
    ensures r.result.Ok? ==> r.result.value.ListTag?
    decreases |data| - pos, 0, 0
  {
    var lt := Codec.ByteAt(data, pos);
    if lt.result.Err? then Read(Err(lt.result.error), lt.next)
    else
      var n := CountAt(data, lt.next);
      if n.result.Err? then Read(Err(n.result.error), n.next)
      else Lift(ItemsAt(lt.result.value, data, n.next, n.result.value, []), items => ListTag(lt.result.value, items))
  }

  /** The loop of NBTList::read with n rounds to go and the elements in acc. */
  function ItemsAt(lt: byte, data: seq<byte>, pos: nat, n: nat, acc: seq<Tag>): (r: Read<seq<Tag>>)
    requires pos <= |data|
    ensures pos <= r.next <= |data|
    decreases |data| - pos, 2, n
  {
    if n == 0 then Read(Ok(acc), pos)
    else if CreateTag(lt).None? then ItemsAt(lt, data, pos, n - 1, acc)
    else
      var x := PayloadAt(lt, data, pos);
      if x.result.Err? then Read(Err(x.result.error), x.next)
      else ItemsAt(lt, data, x.next, n - 1, acc + [x.result.value])
  }

  /** The loop of NBTCompound::read over a map holding acc: a type byte, which
      ends the compound when End; the name; then, when createTag knows the type,
      the payload, stored under the name. An unknown type stores nothing and
      reads no payload. */
  function EntriesAt(data: seq<byte>, pos: nat, acc: seq<Entry>): (r: Read<seq<Entry>>)
    requires pos <= |data|
    ensures pos <= r.next <= |data|
    decreases |data| - pos, 0, 0
  {
    var t := Codec.ByteAt(data, pos);
    if t.result.Err? then Read(Err(t.result.error), t.next)
    else if t.result.value == END then Read(Ok(acc), t.next)
    else
      var name := NameAt(data, t.next);
      if name.result.Err? then Read(Err(name.result.error), name.next)
      else if CreateTag(t.result.value).None? then EntriesAt(data, name.next, acc)
      else
        var x := PayloadAt(t.result.value, data, name.next);
        if x.result.Err? then Read(Err(x.result.error), x.next)
        else EntriesAt(data, x.next, Insert(acc, name.result.value, x.result.value))
  }

  /** NBTReader::readTag: createTag(t), then its read; no read at all, and no
      tag, when the type is unknown. */
  function TagAt(t: byte, data: seq<byte>, pos: nat): (r: Read<Option<Tag>>)
    requires pos <= |data|
    ensures pos <= r.next <= |data|
    ensures r.result.Ok? ==> (r.result.value.None? <==> t > LONG_ARRAY)
    ensures t > LONG_ARRAY ==> r == Read(Ok(None), pos)
  {
    if CreateTag(t).None? then Read(Ok(None), pos)
    else
      var x := PayloadAt(t, data, pos);
      if x.result.Err? then Read(Err(x.result.error), x.next) else Read(Ok(Some(x.result.value)), x.next)
  }

  /** NBTReader::readNamedTag: the type byte; End gives ("", End) and reads no
      name; otherwise the name, then readTag of the type. */
  function NamedTagAt(data: seq<byte>, pos: nat): (r: Read<(seq<byte>, Option<Tag>)>)
    requires pos <= |data|
    ensures pos <= r.next <= |data|
  {
    var t := Codec.ByteAt(data, pos);
    if t.result.Err? then Read(Err(t.result.error), t.next)
    else if t.result.value == END then Read(Ok(([], Some(EndTag))), t.next)
    else
      var name := NameAt(data, t.next);
      if name.result.Err? then Read(Err(name.result.error), name.next)
      else
        var x := TagAt(t.result.value, data, name.next);
        if x.result.Err? then Read(Err(x.result.error), x.next)
        else Read(Ok((name.result.value, x.result.value)), x.next)
  }

  // The map of NBTCompound

  /** std::string's operator<: lexicographic over the bytes, a proper prefix first. */
  predicate Less(a: seq<byte>, b: seq<byte>)
  {
    if a == [] then b != []
    else b != [] && (a[0] < b[0] || (a[0] == b[0] && Less(a[1..], b[1..])))
  }

  lemma {:induction false} LessIrreflexive(a: seq<byte>)
    ensures !Less(a, a)
  {
    if a != [] {
      LessIrreflexive(a[1..]);
    }
  }

  lemma {:induction false} LessTransitive(a: seq<byte>, b: seq<byte>, c: seq<byte>)
    requires Less(a, b) && Less(b, c)
    ensures Less(a, c)
  {
    if a != [] && a[0] == b[0] && b[0] == c[0] {
      LessTransitive(a[1..], b[1..], c[1..]);
    }
  }

  lemma {:induction false} LessTotal(a: seq<byte>, b: seq<byte>)
    requires a != b
    ensures Less(a, b) || Less(b, a)
  {
    if a != [] && b != [] && a[0] == b[0] {
      assert a == [a[0]] + a[1..] && b == [b[0]] + b[1..];
      LessTotal(a[1..], b[1..]);
    }
  }

  /** Every name in es comes after m. */
  predicate Above(m: seq<byte>, es: seq<Entry>)
  {
    forall i :: 0 <= i < |es| ==> Less(m, es[i].name)
  }

  /** The names strictly ascend, as the keys of a std::map do. */
  predicate Ascending(es: seq<Entry>)
  {
    forall i, j :: 0 <= i < j < |es| ==> Less(es[i].name, es[j].name)
  }

  /** value[name] = tag: the entry of that name replaced, or a new one put in
      its place in the order. */
  function Insert(es: seq<Entry>, name: seq<byte>, t: Tag): seq<Entry>
  {
    if es == [] then [Entry(name, t)]
    else if es[0].name == name then [Entry(name, t)] + es[1..]
    else if Less(name, es[0].name) then [Entry(name, t)] + es
    else [es[0]] + Insert(es[1..], name, t)
  }

  /** value.erase(name). */
  function Remove(es: seq<Entry>, name: seq<byte>): seq<Entry>
  {
    if es == [] then []
    else if es[0].name == name then Remove(es[1..], name)
    else [es[0]] + Remove(es[1..], name)
  }

  /** getTag: the tag stored under name, or nothing (nullptr). */
  function Lookup(es: seq<Entry>, name: seq<byte>): Option<Tag>
  {
    if es == [] then None
    else if es[0].name == name then Some(es[0].tag)
    else Lookup(es[1..], name)
  }

  /** hasTag: find(name) != end(). */
  predicate Has(es: seq<Entry>, name: seq<byte>)
  {
    exists i :: 0 <= i < |es| && es[i].name == name
  }

  /** getTag gives a tag exactly when hasTag holds. */
  lemma {:induction false} LookupHas(es: seq<Entry>, name: seq<byte>)
    ensures Lookup(es, name).Some? <==> Has(es, name)
  {
    if es != [] {
      LookupHas(es[1..], name);
      if Has(es[1..], name) {
        var i :| 0 <= i < |es[1..]| && es[1..][i].name == name;
        assert es[i + 1].name == name;
      }
      if Has(es, name) && es[0].name != name {
        var i :| 0 <= i < |es| && es[i].name == name;
        assert es[1..][i - 1].name == name;
      }
    }
  }

  /** The tag getTag gives is stored under that name. */
  lemma {:induction false} LookupFound(es: seq<Entry>, name: seq<byte>)
    ensures Lookup(es, name).Some? ==> Entry(name, Lookup(es, name).value) in es
  {
    if es != [] && es[0].name != name {
      LookupFound(es[1..], name);
    }
  }

  /** After setTag, the name gives the new tag and every other name what it gave before. */
  lemma {:induction false} LookupInsert(es: seq<Entry>, name: seq<byte>, t: Tag, other: seq<byte>)
    ensures Lookup(Insert(es, name, t), other) == if other == name then Some(t) else Lookup(es, other)
  {
    if es != [] && es[0].name != name && !Less(name, es[0].name) {
      LookupInsert(es[1..], name, t, other);
    }
  }

  /** After removeTag, the name gives nothing and every other name what it gave before. */
  lemma {:induction false} LookupRemove(es: seq<Entry>, name: seq<byte>, other: seq<byte>)
    ensures Lookup(Remove(es, name), other) == if other == name then None else Lookup(es, other)
  {
    if es != [] {
      LookupRemove(es[1..], name, other);
    }
  }

  lemma {:induction false} InsertAbove(m: seq<byte>, es: seq<Entry>, name: seq<byte>, t: Tag)
    requires Above(m, es) && Less(m, name)
    ensures Above(m, Insert(es, name, t))
  {
    if es != [] && es[0].name != name && !Less(name, es[0].name) {
      InsertAbove(m, es[1..], name, t);
    }
  }

  /** setTag keeps the names ascending. */
  lemma {:induction false} InsertAscending(es: seq<Entry>, name: seq<byte>, t: Tag)
    requires Ascending(es)
    ensures Ascending(Insert(es, name, t))
  {
    if es == [] {
    } else if es[0].name == name {
      TailAscending(es);
      ConsAscending(Entry(name, t), es[1..]);
    } else if Less(name, es[0].name) {
      TailAscending(es);
      AboveBelow(name, es[0].name, es[1..]);
      ConsAscending(es[0], es[1..]);
      assert es == [es[0]] + es[1..];
      ConsAscending(Entry(name, t), es);
    } else {
      LessTotal(name, es[0].name);
      TailAscending(es);
      InsertAscending(es[1..], name, t);
      InsertAbove(es[0].name, es[1..], name, t);
      ConsAscending(es[0], Insert(es[1..], name, t));
    }
  }

  /** The entries after the first ascend, and all come after it. */
  lemma TailAscending(es: seq<Entry>)
    requires es != [] && Ascending(es)
    ensures Ascending(es[1..]) && Above(es[0].name, es[1..])
  {
    assert forall i :: 0 <= i < |es| - 1 ==> es[1..][i] == es[i + 1];
  }

  /** An entry put before entries that ascend and come after it keeps them ascending. */
  lemma ConsAscending(e: Entry, rest: seq<Entry>)
    requires Above(e.name, rest) && Ascending(rest)
    ensures Ascending([e] + rest)
  {
    var r := [e] + rest;
    forall i, j | 0 <= i < j < |r|
      ensures Less(r[i].name, r[j].name)
    {
      assert r[j] == rest[j - 1];
      if i > 0 {
        assert r[i] == rest[i - 1];
      }
    }
  }

  /** Names after n come after any m below n. */
  lemma AboveBelow(m: seq<byte>, n: seq<byte>, es: seq<Entry>)
    requires Less(m, n) && Above(n, es)
    ensures Above(m, es)
  {
    forall i | 0 <= i < |es|
      ensures Less(m, es[i].name)
    {
      LessTransitive(m, n, es[i].name);
    }
  }

  lemma {:induction false} RemoveAbove(m: seq<byte>, es: seq<Entry>, name: seq<byte>)
    requires Above(m, es)
    ensures Above(m, Remove(es, name))
  {
    if es != [] {
      RemoveAbove(m, es[1..], name);
    }
  }

  /** removeTag keeps the names ascending. */
  lemma {:induction false} RemoveAscending(es: seq<Entry>, name: seq<byte>)
    requires Ascending(es)
    ensures Ascending(Remove(es, name))
  {
    if es != [] {
      RemoveAscending(es[1..], name);
      if es[0].name != name {
        RemoveAbove(es[0].name, es[1..], name);
      }
    }
  }

  /** A name above all present goes at the end. */
  lemma {:induction false} InsertLast(es: seq<Entry>, name: seq<byte>, t: Tag)
    requires forall i :: 0 <= i < |es| ==> Less(es[i].name, name)
    ensures Insert(es, name, t) == es + [Entry(name, t)]
  {
    if es != [] {
      LessIrreflexive(name);
      if Less(name, es[0].name) {
        LessTransitive(name, es[0].name, name);
      }
      InsertLast(es[1..], name, t);
    }
  }

  /** On a duplicate name the last write wins. */
  lemma DuplicateLastWins(es: seq<Entry>, name: seq<byte>, first: Tag, second: Tag)
    ensures Lookup(Insert(Insert(es, name, first), name, second), name) == Some(second)
  {
    LookupInsert(Insert(es, name, first), name, second, name);
  }

  /** Reading a compound onto an ascending map leaves it ascending. */
  lemma {:induction false} EntriesAtAscending(data: seq<byte>, pos: nat, acc: seq<Entry>)
    requires pos <= |data| && Ascending(acc)
    ensures EntriesAt(data, pos, acc).result.Ok? ==> Ascending(EntriesAt(data, pos, acc).result.value)
    decreases |data| - pos
  {
    var t := Codec.ByteAt(data, pos);
    if t.result.Ok? && t.result.value != END {
      var name := NameAt(data, t.next);
      if name.result.Ok? {
        if CreateTag(t.result.value).None? {
          EntriesAtAscending(data, name.next, acc);
        } else {
          var x := PayloadAt(t.result.value, data, name.next);
          if x.result.Ok? {
            InsertAscending(acc, name.result.value, x.result.value);
            EntriesAtAscending(data, x.next, Insert(acc, name.result.value, x.result.value));
          }
        }
      }
    }
  }

  // Round trips

  /** A tag whose serialize output its read takes back: sizes that fit the
      Int32 and VarInt counts, list elements of the list's type, and compounds
      with ascending names and no End entry. An End entry would be read as the
      end of the compound. */
  predicate WellFormed(t: Tag)
  {
    match t
    case ByteArrayTag(vs) => |vs| < 0x8000_0000
    case StringTag(s) => |s| < 0x8000_0000
    case ListTag(lt, items) =>
      |items| < 0x8000_0000 && forall i :: 0 <= i < |items| ==> TypeId(items[i]) == lt && WellFormed(items[i])
    case CompoundTag(es) => Ascending(es) && forall i :: 0 <= i < |es| ==> EntryWellFormed(es[i])
    case IntArrayTag(vs) => |vs| < 0x8000_0000
    case LongArrayTag(vs) => |vs| < 0x8000_0000
    case _ => true
  }

  predicate EntryWellFormed(e: Entry)
  {
    |e.name| < 0x8000_0000 && !e.tag.EndTag? && WellFormed(e.tag)
  }

  /** A name or string reads back as written. */
  lemma NameRoundTrip(s: seq<byte>, data: seq<byte>, pos: nat)
    requires |s| < 0x8000_0000 && Codec.HasAt(data, pos, NameBytes(s))
    ensures pos <= |data| && NameAt(data, pos) == Read(Ok(s), pos + |NameBytes(s)|)
  {
    var n := Count32(|s|);
    assert n == |s|;
    var e := VarInts.Encode(n);
    assert NameBytes(s) == e + s;
    Codec.VarIntThen(n, s, data, pos, pos + |e|);
    NameOf(data, pos, n, pos + |e|);
    if s != [] {
      Codec.BytesAtHas(data, pos + |e|, s);
    }
  }

  /** A name followed by more input. */
  lemma NameThen(s: seq<byte>, rest: seq<byte>, data: seq<byte>, pos: nat) returns (next: nat)
    requires |s| < 0x8000_0000 && Codec.HasAt(data, pos, NameBytes(s) + rest)
    ensures next == pos + |NameBytes(s)| <= |data| && NameAt(data, pos) == Read(Ok(s), next)
    ensures Codec.HasAt(data, next, rest)
  {
    Codec.HasAtSplit(data, pos, NameBytes(s), rest);
    NameRoundTrip(s, data, pos);
    next := pos + |NameBytes(s)|;
  }

  /** NameAt from its length read. */
  lemma NameOf(data: seq<byte>, pos: nat, len: int32, q: nat)
    requires pos <= |data| && VarInts.At(data, pos) == Read(Ok(len), q)
    ensures NameAt(data, pos) == if len > 0 then Codec.BytesAt(data, q, len) else Read(Ok([]), q)
  {
  }

  /** The NBT string layout differs from writeString only for non-positive
      lengths: every length of zero or less reads as the empty string. */
  lemma NonPositiveLengthIsEmpty(v: int32, data: seq<byte>, pos: nat)
    requires v <= 0 && Codec.HasAt(data, pos, VarInts.Encode(v))
    ensures pos <= |data| && NameAt(data, pos) == Read(Ok([]), pos + |VarInts.Encode(v)|)
  {
    Codec.VarIntRoundTrip(v, data, pos);
    Codec.HasAtSlice(data, pos, VarInts.Encode(v));
  }

  /** An empty name is written as the single byte VarInt(0). */
  lemma EmptyName()
    ensures NameBytes([]) == [0]
  {
    VarInts.Leb128Unfold(0);
  }

  lemma CountRoundTrip(n: nat, data: seq<byte>, pos: nat)
    requires n < 0x8000_0000 && Codec.HasAt(data, pos, Int32Bytes(Count32(n)))
    ensures pos <= |data| && CountAt(data, pos) == Read(Ok(n), pos + 4)
  {
    assert Count32(n) == n;
    Codec.Int32RoundTrip(n, data, pos);
    Codec.HasAtSlice(data, pos, Int32Bytes(n));
  }

  /** A count followed by more input. */
  lemma CountThen(n: nat, rest: seq<byte>, data: seq<byte>, pos: nat) returns (next: nat)
    requires n < 0x8000_0000 && Codec.HasAt(data, pos, Int32Bytes(Count32(n)) + rest)
    ensures next == pos + 4 <= |data| && CountAt(data, pos) == Read(Ok(n), next)
    ensures Codec.HasAt(data, next, rest)
  {
    Codec.HasAtSplit(data, pos, Int32Bytes(Count32(n)), rest);
    CountRoundTrip(n, data, pos);
    next := pos + 4;
  }

  /** A negative count is refused with std::length_error once its four bytes are read. */
  lemma NegativeCountRefused(v: int32, data: seq<byte>, pos: nat)
    requires v < 0 && Codec.HasAt(data, pos, Int32Bytes(v))
    ensures pos <= |data| && CountAt(data, pos) == Read(Err(LengthError), pos + 4)
    ensures PayloadAt(BYTE_ARRAY, data, pos).result == Err(LengthError)
    ensures PayloadAt(INT_ARRAY, data, pos).result == Err(LengthError)
    ensures PayloadAt(LONG_ARRAY, data, pos).result == Err(LengthError)
  {
    Codec.Int32RoundTrip(v, data, pos);
    Codec.HasAtSlice(data, pos, Int32Bytes(v));
  }

  lemma {:induction false} Int8sRoundTrip(vs: seq<int8>, data: seq<byte>, pos: nat, acc: seq<int8>)
    requires Codec.HasAt(data, pos, Int8sBytes(vs))
    ensures pos <= |data| && Int8sAt(data, pos, |vs|, acc) == Read(Ok(acc + vs), pos + |vs|)
  {
    Codec.HasAtSlice(data, pos, Int8sBytes(vs));
    if vs == [] {
      assert acc + vs == acc;
    } else {
      var b: byte := (vs[0] as int) % 256;
      Codec.HasAtSplit(data, pos, [b], Int8sBytes(vs[1..]));
      Codec.HasAtSlice(data, pos, [b]);
      assert data[pos] == b;
      Int8sLength(vs[1..]);
      assert Codec.Int8At(data, pos) == Read(Ok(vs[0]), pos + 1);
      Int8sRoundTrip(vs[1..], data, pos + 1, acc + [vs[0]]);
      assert acc + [vs[0]] + vs[1..] == acc + vs;
    }
  }

  lemma {:induction false} Int32sRoundTrip(vs: seq<int32>, data: seq<byte>, pos: nat, acc: seq<int32>)
    requires Codec.HasAt(data, pos, Int32sBytes(vs))
    ensures pos <= |data| && Int32sAt(data, pos, |vs|, acc) == Read(Ok(acc + vs), pos + 4 * |vs|)
  {
    Codec.HasAtSlice(data, pos, Int32sBytes(vs));
    if vs == [] {
      assert acc + vs == acc;
    } else {
      Codec.HasAtSplit(data, pos, Int32Bytes(vs[0]), Int32sBytes(vs[1..]));
      Codec.Int32RoundTrip(vs[0], data, pos);
      Int32sRoundTrip(vs[1..], data, pos + 4, acc + [vs[0]]);
      assert acc + [vs[0]] + vs[1..] == acc + vs;
    }
  }

  lemma {:induction false} Int64sRoundTrip(vs: seq<int64>, data: seq<byte>, pos: nat, acc: seq<int64>)
    requires Codec.HasAt(data, pos, Int64sBytes(vs))
    ensures pos <= |data| && Int64sAt(data, pos, |vs|, acc) == Read(Ok(acc + vs), pos + 8 * |vs|)
  {
    Codec.HasAtSlice(data, pos, Int64sBytes(vs));
    if vs == [] {
      assert acc + vs == acc;
    } else {
      Codec.HasAtSplit(data, pos, Int64Bytes(vs[0]), Int64sBytes(vs[1..]));
      Codec.Int64RoundTrip(vs[0], data, pos);
      Int64sRoundTrip(vs[1..], data, pos + 8, acc + [vs[0]]);
      assert acc + [vs[0]] + vs[1..] == acc + vs;
    }
  }

  /** read(serialize(t)) == t for a well-formed tag, consuming exactly the payload. */
  lemma {:induction false} PayloadRoundTrip(t: Tag, data: seq<byte>, pos: nat)
    requires WellFormed(t) && Codec.HasAt(data, pos, Payload(t))
    ensures pos <= |data| && PayloadAt(TypeId(t), data, pos) == Read(Ok(t), pos + |Payload(t)|)
    decreases t, 1
  {
    match t
    case ListTag(_, _) => ListRoundTrip(t, data, pos);
    case CompoundTag(es) =>
      EntriesRoundTrip(es, data, pos, []);
      assert [] + es == es;
    case _ => LeafRoundTrip(t, data, pos);
  }

  lemma LeafRoundTrip(t: Tag, data: seq<byte>, pos: nat)
    requires !t.ListTag? && !t.CompoundTag?
    requires WellFormed(t) && Codec.HasAt(data, pos, Payload(t))
    ensures pos <= |data| && LeafAt(TypeId(t), data, pos) == Read(Ok(t), pos + |Payload(t)|)
  {
    if t.ByteArrayTag? || t.IntArrayTag? || t.LongArrayTag? {
      ArrayRoundTrip(t, data, pos);
    } else {
      ScalarRoundTrip(t, data, pos);
    }
  }

  /** A payload followed by more input. */
  lemma PayloadThen(t: Tag, rest: seq<byte>, data: seq<byte>, pos: nat) returns (next: nat)
    requires WellFormed(t) && Codec.HasAt(data, pos, Payload(t) + rest)
    ensures next == pos + |Payload(t)| <= |data| && PayloadAt(TypeId(t), data, pos) == Read(Ok(t), next)
    ensures Codec.HasAt(data, next, rest)
    decreases t, 2
  {
    Codec.HasAtSplit(data, pos, Payload(t), rest);
    PayloadRoundTrip(t, data, pos);
    next := pos + |Payload(t)|;
  }

  lemma ScalarRoundTrip(t: Tag, data: seq<byte>, pos: nat)
    requires !t.ListTag? && !t.CompoundTag? && !t.ByteArrayTag? && !t.IntArrayTag? && !t.LongArrayTag?
    requires WellFormed(t) && Codec.HasAt(data, pos, Payload(t))
    ensures pos <= |data| && ScalarAt(TypeId(t), data, pos) == Read(Ok(t), pos + |Payload(t)|)
  {
    Codec.HasAtSlice(data, pos, Payload(t));
    match t
    case EndTag =>
    case ByteTag(v) =>
      assert data[pos] == (v as int) % 256;
    case ShortTag(v) => Codec.Int16RoundTrip(v, data, pos);
    case IntTag(v) => Codec.Int32RoundTrip(v, data, pos);
    case LongTag(v) => Codec.Int64RoundTrip(v, data, pos);
    case FloatTag(v) => Codec.UInt32RoundTrip(v, data, pos);
    case DoubleTag(v) => Bits64RoundTrip(v, data, pos);
    case StringTag(s) => NameRoundTrip(s, data, pos);
  }

  lemma Bits64RoundTrip(v: uint64, data: seq<byte>, pos: nat)
    requires Codec.HasAt(data, pos, BE(v, 8))
    ensures pos + 8 <= |data| && Bits64At(data, pos) == Read(Ok(v), pos + 8)
  {
    Pow256Values();
    UnBEofBE(v, 8);
    Codec.BytesAtHas(data, pos, BE(v, 8));
  }

  lemma ArrayRoundTrip(t: Tag, data: seq<byte>, pos: nat)
    requires t.ByteArrayTag? || t.IntArrayTag? || t.LongArrayTag?
    requires WellFormed(t) && Codec.HasAt(data, pos, Payload(t))
    ensures pos <= |data| && ArrayAt(TypeId(t), data, pos) == Read(Ok(t), pos + |Payload(t)|)
  {
    match t
    case ByteArrayTag(vs) =>
      var q := CountThen(|vs|, Int8sBytes(vs), data, pos);
      Int8sRoundTrip(vs, data, q, []);
      Int8sLength(vs);
      ArrayStep(BYTE_ARRAY, data, pos, |vs|, q, q + |vs|, t);
    case IntArrayTag(vs) =>
      var q := CountThen(|vs|, Int32sBytes(vs), data, pos);
      Int32sRoundTrip(vs, data, q, []);
      Int32sLength(vs);
      ArrayStep(INT_ARRAY, data, pos, |vs|, q, q + 4 * |vs|, t);
    case LongArrayTag(vs) =>
      var q := CountThen(|vs|, Int64sBytes(vs), data, pos);
      Int64sRoundTrip(vs, data, q, []);
      Int64sLength(vs);
      ArrayStep(LONG_ARRAY, data, pos, |vs|, q, q + 8 * |vs|, t);
  }

  /** An array read once its count and its elements are read. */
  lemma ArrayStep(ty: byte, data: seq<byte>, pos: nat, n: nat, q: nat, next: nat, t: Tag)
    requires pos <= |data| && CountAt(data, pos) == Read(Ok(n), q) && q <= |data|
    requires ty == BYTE_ARRAY && t.ByteArrayTag? ==> Int8sAt(data, q, n, []) == Read(Ok([] + t.bytes), next)
    requires ty == INT_ARRAY && t.IntArrayTag? ==> Int32sAt(data, q, n, []) == Read(Ok([] + t.ints), next)
    requires ty == LONG_ARRAY && t.LongArrayTag? ==> Int64sAt(data, q, n, []) == Read(Ok([] + t.longs), next)
    requires TypeId(t) == ty && (t.ByteArrayTag? || t.IntArrayTag? || t.LongArrayTag?)
    ensures ArrayAt(ty, data, pos) == Read(Ok(t), next)
  {
    match t
    case ByteArrayTag(vs) => assert [] + vs == vs;
    case IntArrayTag(vs) => assert [] + vs == vs;
    case LongArrayTag(vs) => assert [] + vs == vs;
  }

  lemma {:induction false} Int8sLength(vs: seq<int8>)
    ensures |Int8sBytes(vs)| == |vs|
  {
    if vs != [] {
      Int8sLength(vs[1..]);
    }
  }

  lemma {:induction false} Int32sLength(vs: seq<int32>)
    ensures |Int32sBytes(vs)| == 4 * |vs|
  {
    if vs != [] {
      Int32sLength(vs[1..]);
    }
  }

  lemma {:induction false} Int64sLength(vs: seq<int64>)
    ensures |Int64sBytes(vs)| == 8 * |vs|
  {
    if vs != [] {
      Int64sLength(vs[1..]);
    }
  }

  lemma ListRoundTrip(t: Tag, data: seq<byte>, pos: nat)
    requires t.ListTag? && WellFormed(t) && Codec.HasAt(data, pos, Payload(t))
    ensures pos <= |data| && ListAt(data, pos) == Read(Ok(t), pos + |Payload(t)|)
    decreases t, 0
  {
    var lt, items := t.listType, t.items;
    var count := Int32Bytes(Count32(|items|));
    assert Payload(t) == [lt] + (count + ItemsPayload(items));
    TypeByteThen(lt, count + ItemsPayload(items), data, pos);
    var q := CountThen(|items|, ItemsPayload(items), data, pos + 1);
    ItemsRoundTrip(lt, items, data, q, []);
    assert [] + items == items;
  }

  lemma {:induction false} ItemsRoundTrip(lt: byte, items: seq<Tag>, data: seq<byte>, pos: nat, acc: seq<Tag>)
    requires forall i :: 0 <= i < |items| ==> TypeId(items[i]) == lt && WellFormed(items[i])
    requires Codec.HasAt(data, pos, ItemsPayload(items))
    ensures pos <= |data| && ItemsAt(lt, data, pos, |items|, acc) == Read(Ok(acc + items), pos + |ItemsPayload(items)|)
    decreases items
  {
    if items == [] {
      assert acc + items == acc;
    } else {
      ItemsTail(lt, items);
      var next := PayloadThen(items[0], ItemsPayload(items[1..]), data, pos);
      ItemsStep(lt, data, pos, |items|, acc, items[0], next);
      ItemsRoundTrip(lt, items[1..], data, next, acc + [items[0]]);
    }
  }

  /** The first element of a list and the rest. */
  lemma ItemsTail(lt: byte, items: seq<Tag>)
    requires items != [] && forall i :: 0 <= i < |items| ==> TypeId(items[i]) == lt && WellFormed(items[i])
    ensures TypeId(items[0]) == lt && WellFormed(items[0])
    ensures forall i :: 0 <= i < |items[1..]| ==> TypeId(items[1..][i]) == lt && WellFormed(items[1..][i])
    ensures ItemsPayload(items) == Payload(items[0]) + ItemsPayload(items[1..])
    ensures forall acc: seq<Tag> :: acc + [items[0]] + items[1..] == acc + items
  {
    forall acc: seq<Tag> ensures acc + [items[0]] + items[1..] == acc + items {
      assert acc + [items[0]] + items[1..] == acc + items;
    }
  }

  /** ItemsAt after one element read. */
  lemma ItemsStep(lt: byte, data: seq<byte>, pos: nat, n: nat, acc: seq<Tag>, x: Tag, next: nat)
    requires n > 0 && lt <= LONG_ARRAY && pos <= |data| && PayloadAt(lt, data, pos) == Read(Ok(x), next)
    ensures ItemsAt(lt, data, pos, n, acc) == ItemsAt(lt, data, next, n - 1, acc + [x])
  {
  }

  /** One well-formed entry followed by more input: the loop reads it, stores
      it under its name, and goes on just past it. */
  lemma EntryThen(e: Entry, rest: seq<byte>, data: seq<byte>, pos: nat, acc: seq<Entry>) returns (next: nat)
    requires EntryWellFormed(e) && Codec.HasAt(data, pos, EntryBytes(e) + rest)
    ensures next == pos + |EntryBytes(e)| <= |data| && Codec.HasAt(data, next, rest)
    ensures EntriesAt(data, pos, acc) == EntriesAt(data, next, Insert(acc, e.name, e.tag))
  {
    EntryLayout(e, rest);
    TypeByteThen(TypeId(e.tag), NameBytes(e.name) + (Payload(e.tag) + rest), data, pos);
    var q := NameThen(e.name, Payload(e.tag) + rest, data, pos + 1);
    next := PayloadThen(e.tag, rest, data, q);
    EntriesStep(data, pos, acc, e.name, e.tag, next);
  }

  /** An entry's bytes, split into type byte, name and payload. */
  lemma EntryLayout(e: Entry, rest: seq<byte>)
    ensures EntryBytes(e) + rest == [TypeId(e.tag)] + (NameBytes(e.name) + (Payload(e.tag) + rest))
    ensures |EntryBytes(e)| == 1 + |NameBytes(e.name)| + |Payload(e.tag)|
  {
  }

  lemma {:induction false} EntriesRoundTrip(es: seq<Entry>, data: seq<byte>, pos: nat, acc: seq<Entry>)
    requires forall i :: 0 <= i < |es| ==> EntryWellFormed(es[i])
    requires Ascending(acc + es)
    requires Codec.HasAt(data, pos, EntriesPayload(es) + [END])
    ensures pos <= |data| && EntriesAt(data, pos, acc) == Read(Ok(acc + es), pos + |EntriesPayload(es)| + 1)
    decreases es, 1
  {
    if es == [] {
      Codec.HasAtSlice(data, pos, EntriesPayload(es) + [END]);
      assert data[pos] == END;
      EntriesEnd(data, pos, acc);
      assert acc + es == acc;
    } else {
      AscendingHead(acc, es);
      var next := EntriesHead(es, data, pos, acc);
      EntriesRoundTrip(es[1..], data, next, acc + [es[0]]);
    }
  }

  /** The first entry of es read onto acc, where it goes last: the rest of es
      follows at next. */
  lemma EntriesHead(es: seq<Entry>, data: seq<byte>, pos: nat, acc: seq<Entry>) returns (next: nat)
    requires es != [] && EntryWellFormed(es[0]) && Insert(acc, es[0].name, es[0].tag) == acc + [es[0]]
    requires Codec.HasAt(data, pos, EntriesPayload(es) + [END])
    ensures pos <= next <= |data| && next + |EntriesPayload(es[1..])| == pos + |EntriesPayload(es)|
    ensures EntriesAt(data, pos, acc) == EntriesAt(data, next, acc + [es[0]])
    ensures Codec.HasAt(data, next, EntriesPayload(es[1..]) + [END])
    decreases es, 0
  {
    var rest := EntriesPayload(es[1..]) + [END];
    assert EntriesPayload(es) + [END] == EntryBytes(es[0]) + rest;
    next := EntryThen(es[0], rest, data, pos, acc);
  }

  /** Moving the first entry of es over to acc: it is stored last, and the
      rest stays ascending and well formed. */
  lemma AscendingHead(acc: seq<Entry>, es: seq<Entry>)
    requires es != [] && Ascending(acc + es)
    requires forall i :: 0 <= i < |es| ==> EntryWellFormed(es[i])
    ensures Insert(acc, es[0].name, es[0].tag) == acc + [es[0]]
    ensures acc + [es[0]] + es[1..] == acc + es
    ensures EntryWellFormed(es[0]) && forall i :: 0 <= i < |es[1..]| ==> EntryWellFormed(es[1..][i])
  {
    AscendingStep(acc, es);
    InsertLast(acc, es[0].name, es[0].tag);
  }

  /** The End byte ends the compound. */
  lemma EntriesEnd(data: seq<byte>, pos: nat, acc: seq<Entry>)
    requires pos < |data| && data[pos] == END
    ensures EntriesAt(data, pos, acc) == Read(Ok(acc), pos + 1)
  {
  }

  /** The first name of es is above every name of acc, and moving it over to
      acc keeps the whole ascending. */
  lemma AscendingStep(acc: seq<Entry>, es: seq<Entry>)
    requires es != [] && Ascending(acc + es)
    ensures forall i :: 0 <= i < |acc| ==> Less(acc[i].name, es[0].name)
    ensures acc + [es[0]] + es[1..] == acc + es
  {
    assert acc + [es[0]] + es[1..] == acc + es;
    forall i | 0 <= i < |acc|
      ensures Less(acc[i].name, es[0].name)
    {
      assert (acc + es)[i] == acc[i] && (acc + es)[|acc|] == es[0];
    }
  }

  /** readNamedTag(writeNamedTag(name, t)) gives back the tag and its name; an
      End tag comes back with the empty name, since only its type byte is written. */
  lemma NamedTagRoundTrip(name: seq<byte>, t: Tag, data: seq<byte>, pos: nat)
    requires WellFormed(t) && |name| < 0x8000_0000 && Codec.HasAt(data, pos, NamedTagBytes(name, t))
    ensures pos <= |data|
    ensures NamedTagAt(data, pos) == Read(Ok((if t.EndTag? then [] else name, Some(t))), pos + |NamedTagBytes(name, t)|)
  {
    if t.EndTag? {
      assert NamedTagBytes(name, t) == [END] + [];
      TypeByteThen(END, [], data, pos);
    } else {
      NamedTagThen(name, t, data, pos);
    }
  }

  lemma NamedTagThen(name: seq<byte>, t: Tag, data: seq<byte>, pos: nat)
    requires !t.EndTag? && WellFormed(t) && |name| < 0x8000_0000
    requires Codec.HasAt(data, pos, [TypeId(t)] + (NameBytes(name) + Payload(t)))
    ensures pos + 1 + |NameBytes(name)| + |Payload(t)| <= |data|
    ensures NamedTagAt(data, pos) == Read(Ok((name, Some(t))), pos + 1 + |NameBytes(name)| + |Payload(t)|)
  {
    TypeByteThen(TypeId(t), NameBytes(name) + Payload(t), data, pos);
    var q := NameThen(name, Payload(t), data, pos + 1);
    TagRoundTrip(t, data, q);
    NamedTagStep(data, pos, TypeId(t), name, Some(t), q + |Payload(t)|);
  }

  /** readTag(t's type) takes back what t's serialize wrote. */
  lemma TagRoundTrip(t: Tag, data: seq<byte>, pos: nat)
    requires WellFormed(t) && Codec.HasAt(data, pos, Payload(t))
    ensures pos + |Payload(t)| <= |data| && TagAt(TypeId(t), data, pos) == Read(Ok(Some(t)), pos + |Payload(t)|)
  {
    PayloadRoundTrip(t, data, pos);
  }

  /** readNamedTag once its three reads are known. */
  lemma NamedTagStep(data: seq<byte>, pos: nat, ty: byte, name: seq<byte>, x: Option<Tag>, next: nat)
    requires pos < |data| && Codec.ByteAt(data, pos) == Read(Ok(ty), pos + 1) && ty != END
    requires NameAt(data, pos + 1).result == Ok(name)
    requires TagAt(ty, data, NameAt(data, pos + 1).next) == Read(Ok(x), next)
    ensures NamedTagAt(data, pos) == Read(Ok((name, x)), next)
  {
  }

  /** A type byte followed by more input. */
  lemma TypeByteThen(b: byte, rest: seq<byte>, data: seq<byte>, pos: nat)
    requires Codec.HasAt(data, pos, [b] + rest)
    ensures pos < |data| && Codec.ByteAt(data, pos) == Read(Ok(b), pos + 1)
    ensures Codec.HasAt(data, pos + 1, rest)
  {
    Codec.HasAtSplit(data, pos, [b], rest);
    Codec.HasAtSlice(data, pos, [b]);
  }

  /** writeNamedTag of an End tag is its type byte alone, whatever the name. */
  lemma EndWritesTypeOnly(name: seq<byte>)
    ensures NamedTagBytes(name, EndTag) == [END]
    ensures Payload(EndTag) == []
  {
  }

  // What the reads do with input serialize would not produce

  lemma {:induction false} ItemsSkipped(lt: byte, data: seq<byte>, pos: nat, n: nat, acc: seq<Tag>)
    requires lt > LONG_ARRAY && pos <= |data|
    ensures ItemsAt(lt, data, pos, n, acc) == Read(Ok(acc), pos)
  {
    if n > 0 {
      ItemsSkipped(lt, data, pos, n - 1, acc);
    }
  }

  /** A list whose element type createTag does not know reads as empty after
      its five header bytes, whatever its length says: size() < length. */
  lemma UnknownListTypeSkipped(lt: byte, n: nat, data: seq<byte>, pos: nat)
    requires lt > LONG_ARRAY && n < 0x8000_0000 && Codec.HasAt(data, pos, [lt] + Int32Bytes(n))
    ensures pos <= |data| && ListAt(data, pos) == Read(Ok(ListTag(lt, [])), pos + 5)
  {
    assert Count32(n) == n;
    Codec.HasAtSplit(data, pos, [lt], Int32Bytes(n));
    Codec.HasAtSlice(data, pos, [lt]);
    assert Codec.ByteAt(data, pos) == Read(Ok(lt), pos + 1);
    CountRoundTrip(n, data, pos + 1);
    ItemsSkipped(lt, data, pos + 5, n, []);
  }

  /** A negative list length is refused by reserve() with std::length_error. */
  lemma NegativeListLengthRefused(lt: byte, v: int32, data: seq<byte>, pos: nat)
    requires v < 0 && Codec.HasAt(data, pos, [lt] + Int32Bytes(v))
    ensures pos <= |data| && ListAt(data, pos) == Read(Err(LengthError), pos + 5)
  {
    Codec.HasAtSplit(data, pos, [lt], Int32Bytes(v));
    Codec.HasAtSlice(data, pos, [lt]);
    assert Codec.ByteAt(data, pos) == Read(Ok(lt), pos + 1);
    NegativeCountRefused(v, data, pos + 1);
  }

  /** An entry of unknown type is dropped after its name, and the bytes that
      follow are read as the next entry: its payload is not skipped. */
  lemma UnknownEntrySkipped(t: byte, name: seq<byte>, data: seq<byte>, pos: nat, acc: seq<Entry>)
    requires t > LONG_ARRAY && |name| < 0x8000_0000 && Codec.HasAt(data, pos, [t] + NameBytes(name))
    ensures pos <= |data| && pos + 1 + |NameBytes(name)| <= |data|
    ensures EntriesAt(data, pos, acc) == EntriesAt(data, pos + 1 + |NameBytes(name)|, acc)
  {
    Codec.HasAtSplit(data, pos, [t], NameBytes(name));
    Codec.HasAtSlice(data, pos, [t]);
    assert Codec.ByteAt(data, pos) == Read(Ok(t), pos + 1);
    NameRoundTrip(name, data, pos + 1);
  }

  /** Two entries with the same name read as one, holding the second tag. */
  lemma DuplicateNameRead(name: seq<byte>, first: Tag, second: Tag, data: seq<byte>, pos: nat)
    requires EntryWellFormed(Entry(name, first)) && EntryWellFormed(Entry(name, second))
    requires Codec.HasAt(data, pos, EntryBytes(Entry(name, first)) + EntryBytes(Entry(name, second)) + [END])
    ensures pos <= |data|
    ensures EntriesAt(data, pos, []).result == Ok([Entry(name, second)])
  {
    var a, b := EntryBytes(Entry(name, first)), EntryBytes(Entry(name, second));
    assert a + b + [END] == a + (b + [END]);
    var mid := EntryThen(Entry(name, first), b + [END], data, pos, []);
    assert Insert([], name, first) == [Entry(name, first)];
    var last := EntryThen(Entry(name, second), [END], data, mid, [Entry(name, first)]);
    assert Insert([Entry(name, first)], name, second) == [Entry(name, second)];
    Codec.HasAtSlice(data, last, [END]);
    EntriesEnd(data, last, [Entry(name, second)]);
  }

  /** EntriesAt after one known entry. */
  lemma EntriesStep(data: seq<byte>, pos: nat, acc: seq<Entry>, name: seq<byte>, t: Tag, next: nat)
    requires pos < |data| && data[pos] == TypeId(t) && !t.EndTag?
    requires NameAt(data, pos + 1).result == Ok(name)
    requires PayloadAt(TypeId(t), data, NameAt(data, pos + 1).next) == Read(Ok(t), next)
    ensures EntriesAt(data, pos, acc) == EntriesAt(data, next, Insert(acc, name, t))
  {
  }

  // Finding: readFloat and readDouble copy the bytes in host order

  /** read<float>() and read<double>() as written: memcpy of the next bytes, so
      on a little-endian host the first byte is the least significant. */
  function HostOrderAt(data: seq<byte>, pos: nat, width: nat): Read<nat>
  {
    var b := Codec.BytesAt(data, pos, width);
    if b.result.Err? then Read(Err(b.result.error), b.next) else Read(Ok(UnLE(b.result.value)), b.next)
  }

  /** The number whose little-endian encoding is s. */
  function UnLE(s: seq<byte>): nat
  {
    if s == [] then 0 else s[0] + 256 * UnLE(s[1..])
  }

  /** writeFloat(1.0f) writes 3F 80 00 00; readFloat as written takes those
      bytes back as the pattern 0x0000803F, a different float; the model's Float
      read restores 0x3F800000. */
  lemma FloatByteOrder()
    ensures HostOrderAt(Payload(FloatTag(0x3F80_0000)), 0, 4).result == Ok(0x0000_803F)
    ensures PayloadAt(FLOAT, Payload(FloatTag(0x3F80_0000)), 0).result == Ok(FloatTag(0x3F80_0000))
  {
    var p := Payload(FloatTag(0x3F80_0000));
    assert p == [0x3F, 0x80, 0, 0] by { BE4(0x3F80_0000); }
    HostOrderOf(p, 0x3F + 0x80 * 256);
    FromStart(FloatTag(0x3F80_0000));
  }

  /** The same for writeDouble(1.0) and readDouble. */
  lemma DoubleByteOrder()
    ensures HostOrderAt(Payload(DoubleTag(0x3FF0_0000_0000_0000)), 0, 8).result == Ok(0xF03F)
    ensures PayloadAt(DOUBLE, Payload(DoubleTag(0x3FF0_0000_0000_0000)), 0).result == Ok(DoubleTag(0x3FF0_0000_0000_0000))
  {
    var p := Payload(DoubleTag(0x3FF0_0000_0000_0000));
    assert p == [0x3F, 0xF0, 0, 0, 0, 0, 0, 0] by { DoubleOne(); }
    HostOrderOf(p, 0x3F + 0xF0 * 256);
    FromStart(DoubleTag(0x3FF0_0000_0000_0000));
  }

  /** writeDouble(1.0): the pattern 0x3FF0000000000000, most significant byte first. */
  lemma DoubleOne()
    ensures BE(0x3FF0_0000_0000_0000, 8) == [0x3F, 0xF0, 0, 0, 0, 0, 0, 0]
  {
    assert Shifted(0x3FF0, 6) == 0x3FF0_0000_0000_0000;
    BEShifted(0x3FF0, 2, 6);
    assert BE(0x3FF0, 2) == [0x3F, 0xF0];
  }

  /** a followed by k zero bytes: a * 256^k. */
  function Shifted(a: nat, k: nat): nat
  {
    if k == 0 then a else Shifted(a, k - 1) * 256
  }

  /** The bytes of a number shifted by k bytes: the number's bytes, then k zeros. */
  lemma {:induction false} BEShifted(a: nat, n: nat, k: nat)
    ensures BE(Shifted(a, k), n + k) == BE(a, n) + seq(k, _ => 0)
  {
    if k > 0 {
      var x := Shifted(a, k - 1);
      BEShifted(a, n, k - 1);
      assert (x * 256) / 256 == x && (x * 256) % 256 == 0;
      assert BE(x * 256, n + k) == BE(x, n + k - 1) + [0];
      assert seq(k - 1, _ => 0) + [0] == seq(k, _ => 0);
    }
  }

  /** The host-order read of a whole buffer whose first two bytes are the only
      nonzero ones. */
  lemma HostOrderOf(p: seq<byte>, v: nat)
    requires |p| >= 2 && v == p[0] as int + 256 * p[1] as int && forall i :: 2 <= i < |p| ==> p[i] == 0
    ensures HostOrderAt(p, 0, |p|).result == Ok(v)
  {
    assert p[0..|p|] == p;
    UnLEZeros(p[2..]);
    assert p[1..][1..] == p[2..];
    assert UnLE(p[1..]) == p[1] as int + 256 * UnLE(p[2..]);
    assert UnLE(p) == p[0] as int + 256 * UnLE(p[1..]);
  }

  lemma {:induction false} UnLEZeros(z: seq<byte>)
    requires forall i :: 0 <= i < |z| ==> z[i] == 0
    ensures UnLE(z) == 0
  {
    if z != [] {
      UnLEZeros(z[1..]);
    }
  }

  /** A well-formed tag serialized alone reads back from the start. */
  lemma FromStart(t: Tag)
    requires WellFormed(t)
    ensures PayloadAt(TypeId(t), Payload(t), 0).result == Ok(t)
  {
    Codec.HasAtStart(Payload(t), []);
    assert Payload(t) + [] == Payload(t);
    PayloadRoundTrip(t, Payload(t), 0);
  }
}
