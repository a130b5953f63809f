// The VarInt of the Minecraft protocol: the 32-bit two's complement pattern in
// groups of 7 bits, least significant first, with 0x80 on every byte but the last.
module VarInts {
  import opened Wrappers
  import opened Ints

  /** 128 to the power i: the weight of the i-th 7-bit group. */
  function Shift7(i: nat): (p: int)
    ensures p >= 1
  {
    if i == 0 then 1 else 128 * Shift7(i - 1)
  }

  lemma Shift7Values()
    ensures Shift7(1) == 0x80 && Shift7(2) == 0x4000 && Shift7(3) == 0x20_0000
    ensures Shift7(4) == 0x1000_0000 && Shift7(5) == 0x8_0000_0000
  {
  }

  lemma {:induction false} Shift7Mono(i: nat, j: nat)
    requires i <= j
    ensures Shift7(i) <= Shift7(j)
  {
    if i < j {
      Shift7Mono(i, j - 1);
    }
  }

  /** The group encoding of an unsigned number (the FastSerializer loop). */
  function Leb128(u: nat): (r: seq<byte>)
    ensures 1 <= |r|
  {
    if u < 128 then [u] else [u % 128 + 128] + Leb128(u / 128)
  }

  /** One turn of the writers' loop: the low group, with 0x80 when more follow. */
  lemma Leb128Unfold(u: nat)
    ensures u / 128 == 0 ==> Leb128(u) == [u % 128]
    ensures u / 128 != 0 ==> Leb128(u) == [u % 128 + 128] + Leb128(u / 128)
  {
  }

  /** The VarInt of an int32: the groups of its uint32 bit pattern. */
  function Encode(v: int32): seq<byte>
  {
    Leb128(AsUInt32(v))
  }

  /** Every byte but the last carries the continuation bit, and the length is the
      number of 7-bit groups u needs (one for u = 0). */
  lemma {:induction false} Leb128Shape(u: nat)
    ensures var r := Leb128(u);
      && r[|r| - 1] < 128
      && (forall j :: 0 <= j < |r| - 1 ==> r[j] >= 128)
      && u < Shift7(|r|)
      && (|r| > 1 ==> Shift7(|r| - 1) <= u)
  {
    if u >= 128 {
      Leb128Shape(u / 128);
      var t := Leb128(u / 128);
      assert Leb128(u) == [u % 128 + 128] + t;
    }
  }

  lemma EncodeLength(v: int32)
    ensures 1 <= |Encode(v)| <= 5
    ensures v < 0 ==> |Encode(v)| == 5
    ensures Encode(v)[|Encode(v)| - 1] < 128
    ensures forall j :: 0 <= j < |Encode(v)| - 1 ==> Encode(v)[j] >= 128
  {
    var u := AsUInt32(v);
    Leb128Shape(u);
    var n := |Leb128(u)|;
    Shift7Values();
    if n > 5 {
      Shift7Mono(5, n - 1);
    }
    if v < 0 && n < 5 {
      Shift7Mono(n, 4);
    }
  }

  /** The readVarInt loop of ReadBuffer and BufferUtil after numRead groups have
      been or-ed into acc: a byte must be available, the sixth byte is refused and
      a byte below 0x80 ends the number. */
  function ReadLoop(data: seq<byte>, pos: nat, numRead: nat, acc: uint32): Read<int32>
    requires numRead <= 5
    decreases |data| - pos
  {
    if pos >= |data| then Read(Err(OutOfBounds), pos)
    else
      var b := data[pos];
      var acc' := AsUInt32(acc + (b % 128) * Shift7(numRead));
      if numRead + 1 > 5 then Read(Err(VarIntTooBig), pos + 1)
      else if b >= 128 then ReadLoop(data, pos + 1, numRead + 1, acc')
      else Read(Ok(AsInt32(acc')), pos + 1)
  }

  /** readVarInt at cursor pos. */
  function At(data: seq<byte>, pos: nat): Read<int32>
  {
    ReadLoop(data, pos, 0, 0)
  }

  /** A read that starts inside the data never ends past it, and a successful one
      consumes at least one byte. */
  lemma {:induction false} ReadLoopNext(data: seq<byte>, pos: nat, numRead: nat, acc: uint32)
    requires numRead <= 5 && pos <= |data|
    ensures pos <= ReadLoop(data, pos, numRead, acc).next <= |data|
    ensures ReadLoop(data, pos, numRead, acc).result.Ok? ==> pos < ReadLoop(data, pos, numRead, acc).next
    decreases 5 - numRead
  {
    if pos < |data| && numRead + 1 <= 5 && data[pos] >= 128 {
      ReadLoopNext(data, pos + 1, numRead + 1, AsUInt32(acc + (data[pos] % 128) * Shift7(numRead)));
    }
  }

  /** data holds the bytes s at position pos. */
  predicate HasAt(data: seq<byte>, pos: nat, s: seq<byte>)
  {
    pos + |s| <= |data| && data[pos..pos + |s|] == s
  }

  lemma HasAtHead(data: seq<byte>, pos: nat, s: seq<byte>)
    requires HasAt(data, pos, s) && |s| >= 1
    ensures pos < |data| && data[pos] == s[0]
  {
    assert data[pos..pos + |s|][0] == s[0];
  }

  lemma HasAtTail(data: seq<byte>, pos: nat, s: seq<byte>, t: seq<byte>)
    requires HasAt(data, pos, s + t)
    ensures HasAt(data, pos + |s|, t)
  {
    assert data[pos + |s|..pos + |s| + |t|] == data[pos..pos + |s + t|][|s|..];
  }

  /** The arithmetic of one group: adding the group g of w at weight s keeps the
      invariant acc + s * w == u with the next weight 128 * s. */
  lemma GroupArith(acc: int, s: int, w: nat, u: int, g: int)
    requires s >= 1 && 0 <= acc < s && acc + s * w == u && g == w % 128
    ensures 0 <= acc + g * s < 128 * s
    ensures acc + g * s <= u
    ensures (acc + g * s) + (128 * s) * (w / 128) == u
    ensures w >= 16 ==> 16 * s <= u
  {
    var w' := w / 128;
    MulMono(g, 127, s);
    assert w == 128 * w' + g;
    assert s * w == s * (128 * w') + s * g;
    MulMono(0, w', 128 * s);
    if w >= 16 {
      MulMono(16, w, s);
    }
  }

  /** The read loop after i groups: acc holds the groups read so far and w, the
      number whose groups are still ahead, satisfies acc + 128^i * w == u. */
  lemma {:induction false} ReadLoopOfLeb128(data: seq<byte>, p: nat, i: nat, acc: uint32, w: nat, u: uint32)
    requires i <= 4 && acc < Shift7(i) && acc + Shift7(i) * w == u
    requires HasAt(data, p, Leb128(w))
    ensures ReadLoop(data, p, i, acc) == Read(Ok(AsInt32(u)), p + |Leb128(w)|)
    decreases 4 - i
  {
    var s := Shift7(i);
    var l := Leb128(w);
    HasAtHead(data, p, l);
    var b := data[p];
    var w' := w / 128;
    GroupArith(acc, s, w, u, b % 128);
    var acc' := AsUInt32(acc + b % 128 * s);
    assert acc' == acc + b % 128 * s;
    assert i == 4 ==> w < 16 by {
      if i == 4 {
        Shift7Values();
      }
    }
    if b < 128 {
      assert w' == 0;
      assert acc' == u;
    } else {
      assert i < 4 && w >= 128;
      var t := Leb128(w / 128);
      assert l == [b] + t;
      HasAtTail(data, p, [b], t);
      assert Shift7(i + 1) == 128 * s;
      ReadLoopOfLeb128(data, p + 1, i + 1, acc', w', u);
    }
  }

  /** Reading back a written VarInt gives the value and moves past exactly its bytes,
      whatever follows it. */
  lemma RoundTrip(v: int32, data: seq<byte>, pos: nat)
    requires HasAt(data, pos, Encode(v))
    ensures At(data, pos) == Read(Ok(v), pos + |Encode(v)|)
  {
    var u := AsUInt32(v);
    ReadLoopOfLeb128(data, pos, 0, 0, u, u);
    AsInt32OfAsUInt32(v);
  }

  // The do-while of WriteBuffer::writeVarInt and BufferUtil::writeVarInt as written,
  // with an arithmetic (sign-propagating) shift of a signed value.

  /** One pass of the as-written loop body: the byte it emits and the value it keeps. */
  function SignedStep(value: int): (byte, int)
  {
    var rest := value / 128;
    (value % 128 + (if rest != 0 then 128 else 0), rest)
  }

  /** The value held after k passes of the as-written loop. */
  function SignedAfter(value: int, k: nat): int
  {
    if k == 0 then value else SignedStep(SignedAfter(value, k - 1)).1
  }

  /** The loop stops only when the value reaches 0, and a negative value never does:
      for every negative input the as-written writeVarInt loops forever. */
  lemma {:induction false} SignedNeverStops(value: int, k: nat)
    requires value < 0
    ensures SignedAfter(value, k) < 0
  {
    if k > 0 {
      SignedNeverStops(value, k - 1);
    }
  }

  /** The bytes the as-written loop emits, on the inputs where it terminates. */
  function SignedBytes(value: nat): seq<byte>
  {
    var (b, rest) := SignedStep(value);
    if rest == 0 then [b] else [b] + SignedBytes(rest)
  }

  /** Where the as-written loop terminates it emits the VarInt. */
  lemma {:induction false} SignedBytesAgree(value: nat)
    ensures SignedBytes(value) == Leb128(value)
  {
    if value >= 128 {
      SignedBytesAgree(value / 128);
    }
  }

  lemma MinusOneNeverStops(k: nat)
    ensures SignedAfter(-1, k) == -1
    ensures SignedStep(SignedAfter(-1, k)) == (0xFF, -1)
  {
    if k > 0 {
      MinusOneNeverStops(k - 1);
    }
  }
}
