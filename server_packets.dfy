// The packets the server sends during login and status: each read assigns the
// packet's fields from a ReadBuffer whose cursor is just past the packet id.
// What each read takes is written out as a function of the bytes and the
// cursor, and the server's layout of each packet is written out beside it, as
// the reference the reader is checked against.
module ServerPackets {
  import opened Wrappers
  import opened Ints
  import VarInts
  import Codec
  import ReadBuffers

  // EncryptionRequest (id 0x01, clientbound)

  /** EncryptionRequest::read: the server id string, the public key, the verify token. */
  function EncryptionRequestAt(data: seq<byte>, pos: nat): Read<(seq<byte>, seq<byte>, seq<byte>)>
  {
    var s := Codec.PrefixedAt(data, pos);
    if s.result.Err? then Read(Err(s.result.error), s.next) else
    var k := Codec.PrefixedAt(data, s.next);
    if k.result.Err? then Read(Err(k.result.error), k.next) else
    var t := Codec.PrefixedAt(data, k.next);
    if t.result.Err? then Read(Err(t.result.error), t.next) else
    Read(Ok((s.result.value, k.result.value, t.result.value)), t.next)
  }

  class EncryptionRequest {
    var serverId: seq<byte>
    var publicKey: seq<byte>
    var verifyToken: seq<byte>

    constructor ()
      ensures serverId == [] && publicKey == [] && verifyToken == []
    {
      serverId, publicKey, verifyToken := [], [], [];
    }

    method Read(buf: ReadBuffers.ReadBuffer) returns (r: Result<()>)
      requires buf.Valid()
      modifies this, buf
      ensures buf.Valid()
      ensures var e := EncryptionRequestAt(buf.data, old(buf.pos));
              r == Status(e.result) && buf.pos == e.next
              && (r.Ok? ==> (serverId, publicKey, verifyToken) == e.result.value)
    {
      var s := buf.ReadString();
      if s.Err? {
        return Err(s.error);
      }
      serverId := s.value;
      var k := buf.ReadByteArray();
      if k.Err? {
        return Err(k.error);
      }
      publicKey := k.value;
      var t := buf.ReadByteArray();
      if t.Err? {
        return Err(t.error);
      }
      verifyToken := t.value;
      return Ok(());
    }
  }

  /** How the server lays out an encryption request. */
  function EncryptionRequestWire(serverId: seq<byte>, publicKey: seq<byte>, verifyToken: seq<byte>): seq<byte>
  {
    VarInts.Encode(1) + (Codec.Prefixed(serverId) + (Codec.Prefixed(publicKey) + Codec.Prefixed(verifyToken)))
  }

  /** read takes the three fields in the order the server writes them. */
  lemma EncryptionRequestRoundTrip(serverId: seq<byte>, publicKey: seq<byte>, verifyToken: seq<byte>,
                                   data: seq<byte>, pos: nat)
    requires Codec.Fits(serverId) && Codec.Fits(publicKey) && Codec.Fits(verifyToken)
    requires Codec.HasAt(data, pos, EncryptionRequestWire(serverId, publicKey, verifyToken))
    ensures VarInts.At(data, pos) == Read(Ok(1), pos + 1)
    ensures EncryptionRequestAt(data, pos + 1)
            == Read(Ok((serverId, publicKey, verifyToken)), pos + |EncryptionRequestWire(serverId, publicKey, verifyToken)|)
  {
    var s, k, t := Codec.Prefixed(serverId), Codec.Prefixed(publicKey), Codec.Prefixed(verifyToken);
    var q1 := pos + 1;
    var q2 := q1 + |s|;
    var q3 := q2 + |k|;
    var q4 := q3 + |t|;
    assert |VarInts.Encode(1)| == 1;
    Codec.VarIntThen(1, s + (k + t), data, pos, q1);
    Codec.PrefixedThen(serverId, k + t, data, q1, q2);
    Codec.PrefixedThen(publicKey, t, data, q2, q3);
    assert t + [] == t;
    Codec.PrefixedThen(verifyToken, [], data, q3, q4);
    EncryptionRequestOk(data, q1, serverId, publicKey, verifyToken, q2, q3, q4);
  }

  lemma EncryptionRequestOk(data: seq<byte>, pos: nat, serverId: seq<byte>, publicKey: seq<byte>, verifyToken: seq<byte>,
                            q: nat, r: nat, t: nat)
    requires Codec.PrefixedAt(data, pos) == Read(Ok(serverId), q)
    requires Codec.PrefixedAt(data, q) == Read(Ok(publicKey), r)
    requires Codec.PrefixedAt(data, r) == Read(Ok(verifyToken), t)
    ensures EncryptionRequestAt(data, pos) == Read(Ok((serverId, publicKey, verifyToken)), t)
  {
  }

  lemma EncryptionRequestOf(data: seq<byte>, pos: nat, serverId: seq<byte>, publicKey: seq<byte>, q: nat, r: nat, e: Error)
    requires Codec.PrefixedAt(data, pos) == Read(Ok(serverId), q)
    requires Codec.PrefixedAt(data, q) == Read(Ok(publicKey), r)
    requires Codec.PrefixedAt(data, r).result == Err(e)
    ensures EncryptionRequestAt(data, pos).result == Err(e)
  {
  }

  /** A request cut short by even one byte, so that the packet ends one byte
      before the server's layout does, is refused by the bounds checks. */
  lemma EncryptionRequestTruncated(serverId: seq<byte>, publicKey: seq<byte>, verifyToken: seq<byte>,
                                   data: seq<byte>, pos: nat)
    requires Codec.Fits(serverId) && Codec.Fits(publicKey) && Codec.Fits(verifyToken)
    requires var b := EncryptionRequestWire(serverId, publicKey, verifyToken);
             |data| + 1 == pos + |b| && Codec.HasAt(data, pos, b[..|b| - 1])
    ensures EncryptionRequestAt(data, pos + 1).result == Err(OutOfBounds)
  {
    var e0, s, k, t := VarInts.Encode(1), Codec.Prefixed(serverId), Codec.Prefixed(publicKey), Codec.Prefixed(verifyToken);
    VarInts.EncodeLength(|verifyToken|);
    var tc := t[..|t| - 1];
    Codec.CutLast(k, t);
    Codec.CutLast(s, k + t);
    Codec.CutLast(e0, s + (k + t));
    assert Codec.HasAt(data, pos, e0 + (s + (k + tc)));
    var q1 := pos + 1;
    var q2 := q1 + |s|;
    var q3 := q2 + |k|;
    assert |e0| == 1;
    Codec.VarIntThen(1, s + (k + tc), data, pos, q1);
    Codec.PrefixedThen(serverId, k + tc, data, q1, q2);
    Codec.PrefixedThen(publicKey, tc, data, q2, q3);
    Codec.PrefixedTruncated(verifyToken, data, q3);
    EncryptionRequestOf(data, q1, serverId, publicKey, q2, q3, OutOfBounds);
  }

  // LoginFinished (id 0x02, clientbound)

  datatype Property = Property(name: seq<byte>, value: seq<byte>, signature: Option<seq<byte>>)

  /** The end of a property: only while bytes remain is there a flag byte, and
      only a nonzero flag is followed by the signature string. */
  function SignatureAt(data: seq<byte>, pos: nat): Read<Option<seq<byte>>>
  {
    if pos >= |data| then Read(Ok(None), pos)
    else if data[pos] == 0 then Read(Ok(None), pos + 1)
    else
      var s := Codec.PrefixedAt(data, pos + 1);
      if s.result.Err? then Read(Err(s.result.error), s.next) else Read(Ok(Some(s.result.value)), s.next)
  }

  /** One property: the name and value strings, then the optional signature. */
  function PropertyAt(data: seq<byte>, pos: nat): Read<Property>
  {
    var n := Codec.PrefixedAt(data, pos);
    if n.result.Err? then Read(Err(n.result.error), n.next) else
    var v := Codec.PrefixedAt(data, n.next);
    if v.result.Err? then Read(Err(v.result.error), v.next) else
    var s := SignatureAt(data, v.next);
    if s.result.Err? then Read(Err(s.result.error), s.next) else
    Read(Ok(Property(n.result.value, v.result.value, s.result.value)), s.next)
  }

  /** count more items read by step and appended to acc, stopping at the first
      failure; a count of zero or less reads nothing. */
  function Repeat<T>(step: (seq<byte>, nat) -> Read<T>, data: seq<byte>, pos: nat, count: int, acc: seq<T>): Read<seq<T>>
    decreases if count <= 0 then 0 else count
  {
    if count <= 0 then Read(Ok(acc), pos)
    else
      var x := step(data, pos);
      if x.result.Err? then Read(Err(x.result.error), x.next)
      else Repeat(step, data, x.next, count - 1, acc + [x.result.value])
  }

  /** LoginFinished::read over a packet whose properties already hold acc: the
      16 uuid bytes, the username, the count, then that many properties appended. */
  function LoginFinishedAt(data: seq<byte>, pos: nat, acc: seq<Property>): Read<(seq<byte>, seq<byte>, seq<Property>)>
  {
    var u := Codec.BytesAt(data, pos, 16);
    if u.result.Err? then Read(Err(u.result.error), u.next) else
    var n := Codec.PrefixedAt(data, u.next);
    if n.result.Err? then Read(Err(n.result.error), n.next) else
    var c := VarInts.At(data, n.next);
    if c.result.Err? then Read(Err(c.result.error), c.next) else
    var ps := Repeat(PropertyAt, data, c.next, c.result.value, acc);
    if ps.result.Err? then Read(Err(ps.result.error), ps.next) else
    Read(Ok((u.result.value, n.result.value, ps.result.value)), ps.next)
  }

  /** The remaining() test, the flag byte and the signature of one property. */
  method ReadSignature(buf: ReadBuffers.ReadBuffer) returns (r: Result<Option<seq<byte>>>)
    requires buf.Valid()
    modifies buf
    ensures buf.Valid() && Read(r, buf.pos) == SignatureAt(buf.data, old(buf.pos))
  {
    if buf.Remaining() == 0 {
      return Ok(None);
    }
    var flag := buf.ReadByte();
    if flag.value == 0 {
      return Ok(None);
    }
    var s := buf.ReadString();
    if s.Err? {
      return Err(s.error);
    }
    return Ok(Some(s.value));
  }

  /** One pass of the property loop's body. */
  method ReadProperty(buf: ReadBuffers.ReadBuffer) returns (r: Result<Property>)
    requires buf.Valid()
    modifies buf
    ensures buf.Valid() && Read(r, buf.pos) == PropertyAt(buf.data, old(buf.pos))
  {
    var n := buf.ReadString();
    if n.Err? {
      return Err(n.error);
    }
    var v := buf.ReadString();
    if v.Err? {
      return Err(v.error);
    }
    var s := ReadSignature(buf);
    if s.Err? {
      return Err(s.error);
    }
    return Ok(Property(n.value, v.value, s.value));
  }

  class LoginFinished {
    var uuid: seq<byte>
    var username: seq<byte>
    var properties: seq<Property>

    constructor ()
      ensures uuid == [] && username == [] && properties == []
    {
      uuid, username, properties := [], [], [];
    }

    /** read: the properties read are appended to those already held. */
    method Read(buf: ReadBuffers.ReadBuffer) returns (r: Result<()>)
      requires buf.Valid()
      modifies this, buf
      ensures buf.Valid()
      ensures var e := LoginFinishedAt(buf.data, old(buf.pos), old(properties));
              r == Status(e.result) && buf.pos == e.next
              && (r.Ok? ==> (uuid, username, properties) == e.result.value)
    {
      var u := buf.ReadBytes(16);
      if u.Err? {
        return Err(u.error);
      }
      uuid := u.value;
      var n := buf.ReadString();
      if n.Err? {
        return Err(n.error);
      }
      username := n.value;
      var c := buf.ReadVarInt();
      if c.Err? {
        return Err(c.error);
      }
      r := ReadProperties(buf, c.value);
    }

    /** The for loop over count properties, each pushed back once it is read. */
    method ReadProperties(buf: ReadBuffers.ReadBuffer, count: int32) returns (r: Result<()>)
      requires buf.Valid()
      modifies this`properties, buf
      ensures buf.Valid()
      ensures var e := Repeat(PropertyAt, buf.data, old(buf.pos), count, old(properties));
              r == Status(e.result) && buf.pos == e.next && (r.Ok? ==> properties == e.result.value)
    {
      var i := 0;
      ghost var e := Repeat(PropertyAt, buf.data, buf.pos, count, properties);
      ghost var left: int := count;
      while i < count
        invariant buf.Valid() && 0 <= i && left == count - i
        invariant Repeat(PropertyAt, buf.data, buf.pos, left, properties) == e
        decreases count - i
      {
        ghost var at, acc, rest := buf.pos, properties, left - 1;
        var p := ReadProperty(buf);
        if p.Err? {
          RepeatStops(PropertyAt, buf.data, at, left, acc, p.error, buf.pos);
          return Err(p.error);
        }
        properties := properties + [p.value];
        RepeatStep(PropertyAt, buf.data, at, left, acc, p.value, buf.pos, rest);
        i := i + 1;
        left := rest;
      }
      return Ok(());
    }
  }

  /** Repeat only appends: reading onto acc gives acc followed by what reading
      onto nothing gives, and the same failures. */
  lemma {:induction false} RepeatAccumulates<T>(step: (seq<byte>, nat) -> Read<T>, data: seq<byte>, pos: nat, count: int, acc: seq<T>)
    ensures var a := Repeat(step, data, pos, count, acc);
            var b := Repeat(step, data, pos, count, []);
            a.next == b.next && (a.result.Ok? <==> b.result.Ok?)
            && (a.result.Ok? ==> a.result.value == acc + b.result.value)
            && (a.result.Err? ==> a.result.error == b.result.error)
    decreases if count <= 0 then 0 else count
  {
    if count > 0 {
      var x := step(data, pos);
      if x.result.Ok? {
        var v := x.result.value;
        RepeatAccumulates(step, data, x.next, count - 1, acc + [v]);
        RepeatAccumulates(step, data, x.next, count - 1, [v]);
        assert [] + [v] == [v];
      }
    }
  }

  /** A second read on the same packet keeps the first read's properties and
      appends the new ones after them. */
  lemma SecondReadAccumulates(data: seq<byte>, pos: nat, acc: seq<Property>)
    ensures var a := LoginFinishedAt(data, pos, acc);
            var b := LoginFinishedAt(data, pos, []);
            a.next == b.next && (a.result.Ok? <==> b.result.Ok?)
            && (a.result.Ok? ==> a.result.value.0 == b.result.value.0 && a.result.value.1 == b.result.value.1
                                 && a.result.value.2 == acc + b.result.value.2)
  {
    var u := Codec.BytesAt(data, pos, 16);
    if u.result.Ok? {
      var n := Codec.PrefixedAt(data, u.next);
      if n.result.Ok? {
        var c := VarInts.At(data, n.next);
        if c.result.Ok? {
          RepeatAccumulates(PropertyAt, data, c.next, c.result.value, acc);
        }
      }
    }
  }

  predicate PropertyFits(p: Property)
  {
    Codec.Fits(p.name) && Codec.Fits(p.value) && (p.signature.Some? ==> Codec.Fits(p.signature.value))
  }

  /** How the server ends a property: the flag byte is always written. */
  function SignatureWire(s: Option<seq<byte>>): seq<byte>
  {
    if s.Some? then [1] + Codec.Prefixed(s.value) else [0]
  }

  function PropertyWire(p: Property): seq<byte>
  {
    Codec.Prefixed(p.name) + (Codec.Prefixed(p.value) + SignatureWire(p.signature))
  }

  function PropertiesWire(ps: seq<Property>): seq<byte>
  {
    if ps == [] then [] else PropertyWire(ps[0]) + PropertiesWire(ps[1..])
  }

  lemma SignatureRoundTrip(s: Option<seq<byte>>, data: seq<byte>, pos: nat, next: nat)
    requires (s.Some? ==> Codec.Fits(s.value)) && next == pos + |SignatureWire(s)|
    requires Codec.HasAt(data, pos, SignatureWire(s))
    ensures SignatureAt(data, pos) == Read(Ok(s), next)
  {
    var w := SignatureWire(s);
    assert Codec.HeadAt(data, pos, w);
    if s.Some? {
      assert w[1..] == Codec.Prefixed(s.value);
      Codec.PrefixedRoundTrip(s.value, data, pos + 1);
    }
  }

  lemma PropertyOf(data: seq<byte>, pos: nat, p: Property, q: nat, r: nat, t: nat)
    requires Codec.PrefixedAt(data, pos) == Read(Ok(p.name), q)
    requires Codec.PrefixedAt(data, q) == Read(Ok(p.value), r)
    requires SignatureAt(data, r) == Read(Ok(p.signature), t)
    ensures PropertyAt(data, pos) == Read(Ok(p), t)
  {
  }

  /** One property as the server writes it, followed by the rest of the packet. */
  lemma PropertyThen(p: Property, body: seq<byte>, data: seq<byte>, pos: nat, next: nat)
    requires PropertyFits(p) && next == pos + |PropertyWire(p)|
    requires Codec.HasAt(data, pos, PropertyWire(p) + body)
    ensures PropertyAt(data, pos) == Read(Ok(p), next)
    ensures Codec.HasAt(data, next, body)
  {
    var n, v, t := Codec.Prefixed(p.name), Codec.Prefixed(p.value), SignatureWire(p.signature);
    var q1 := pos + |n|;
    var q2 := q1 + |v|;
    Codec.HasAtSplit(data, pos, PropertyWire(p), body);
    Codec.PrefixedThen(p.name, v + t, data, pos, q1);
    Codec.PrefixedThen(p.value, t, data, q1, q2);
    SignatureRoundTrip(p.signature, data, q2, next);
    PropertyOf(data, pos, p, q1, q2, next);
  }

  /** A property at the very end of the packet has no flag byte to read and so
      no signature. */
  lemma SignatureAbsentAtEnd(name: seq<byte>, value: seq<byte>)
    requires Codec.Fits(name) && Codec.Fits(value)
    ensures var b := Codec.Prefixed(name) + Codec.Prefixed(value);
            PropertyAt(b, 0) == Read(Ok(Property(name, value, None)), |b|)
  {
    var n, v := Codec.Prefixed(name), Codec.Prefixed(value);
    var b := n + v;
    Codec.HasAtStart(b, []);
    assert b + [] == b;
    assert v + [] == v;
    Codec.PrefixedThen(name, v, b, 0, |n|);
    Codec.PrefixedThen(value, [], b, |n|, |b|);
    PropertyOf(b, 0, Property(name, value, None), |n|, |b|, |b|);
  }

  lemma RepeatStops<T>(step: (seq<byte>, nat) -> Read<T>, data: seq<byte>, pos: nat, count: int, acc: seq<T>, e: Error, q: nat)
    requires count > 0 && step(data, pos) == Read(Err(e), q)
    ensures Repeat(step, data, pos, count, acc) == Read(Err(e), q)
  {
  }

  lemma RepeatStep<T>(step: (seq<byte>, nat) -> Read<T>, data: seq<byte>, pos: nat, count: int, acc: seq<T>, x: T, q: nat, left: int)
    requires count > 0 && left == count - 1 && step(data, pos) == Read(Ok(x), q)
    ensures Repeat(step, data, pos, count, acc) == Repeat(step, data, q, left, acc + [x])
  {
  }

  lemma {:induction false} PropertiesRoundTrip(ps: seq<Property>, data: seq<byte>, pos: nat, acc: seq<Property>)
    requires forall i :: 0 <= i < |ps| ==> PropertyFits(ps[i])
    requires Codec.HasAt(data, pos, PropertiesWire(ps))
    ensures Repeat(PropertyAt, data, pos, |ps|, acc) == Read(Ok(acc + ps), pos + |PropertiesWire(ps)|)
  {
    if ps == [] {
      assert acc + ps == acc;
    } else {
      var w, ws := PropertyWire(ps[0]), PropertiesWire(ps[1..]);
      var q := pos + |w|;
      PropertyThen(ps[0], ws, data, pos, q);
      RepeatStep(PropertyAt, data, pos, |ps|, acc, ps[0], q, |ps[1..]|);
      PropertiesRoundTrip(ps[1..], data, q, acc + [ps[0]]);
      assert acc + [ps[0]] + ps[1..] == acc + ps;
    }
  }

  /** How the server lays out LoginFinished. */
  function LoginFinishedWire(uuid: seq<byte>, username: seq<byte>, ps: seq<Property>): seq<byte>
    requires |uuid| == 16 && |ps| < 0x8000_0000
  {
    VarInts.Encode(2) + (uuid + (Codec.Prefixed(username) + (VarInts.Encode(|ps|) + PropertiesWire(ps))))
  }

  lemma LoginFinishedOf(data: seq<byte>, pos: nat, acc: seq<Property>, uuid: seq<byte>, username: seq<byte>, count: int32,
                        ps: seq<Property>, q: nat, r: nat, s: nat, t: nat)
    requires Codec.BytesAt(data, pos, 16) == Read(Ok(uuid), q)
    requires Codec.PrefixedAt(data, q) == Read(Ok(username), r)
    requires VarInts.At(data, r) == Read(Ok(count), s)
    requires Repeat(PropertyAt, data, s, count, acc) == Read(Ok(ps), t)
    ensures LoginFinishedAt(data, pos, acc) == Read(Ok((uuid, username, ps)), t)
  {
  }

  /** A fresh LoginFinished reads back what the server wrote. */
  lemma LoginFinishedRoundTrip(uuid: seq<byte>, username: seq<byte>, ps: seq<Property>, data: seq<byte>, pos: nat)
    requires |uuid| == 16 && Codec.Fits(username) && |ps| < 0x8000_0000
    requires forall i :: 0 <= i < |ps| ==> PropertyFits(ps[i])
    requires Codec.HasAt(data, pos, LoginFinishedWire(uuid, username, ps))
    ensures VarInts.At(data, pos) == Read(Ok(2), pos + 1)
    ensures LoginFinishedAt(data, pos + 1, []) == Read(Ok((uuid, username, ps)), pos + |LoginFinishedWire(uuid, username, ps)|)
  {
    var n, c, w := Codec.Prefixed(username), VarInts.Encode(|ps|), PropertiesWire(ps);
    var q1 := pos + 1;
    var q2 := q1 + 16;
    var q3 := q2 + |n|;
    var q4 := q3 + |c|;
    var q5 := q4 + |w|;
    assert |VarInts.Encode(2)| == 1;
    Codec.VarIntThen(2, uuid + (n + (c + w)), data, pos, q1);
    Codec.BytesThen(uuid, n + (c + w), data, q1, q2);
    Codec.PrefixedThen(username, c + w, data, q2, q3);
    Codec.VarIntThen(|ps|, w, data, q3, q4);
    PropertiesRoundTrip(ps, data, q4, []);
    assert [] + ps == ps;
    LoginFinishedOf(data, q1, [], uuid, username, |ps|, ps, q2, q3, q4, q5);
  }

  // LoginCompression (id 0x03, clientbound)

  class LoginCompression {
    var threshold: int32

    constructor ()
      ensures threshold == 0
    {
      threshold := 0;
    }

    /** read: the threshold is one VarInt. */
    method Read(buf: ReadBuffers.ReadBuffer) returns (r: Result<()>)
      requires buf.Valid()
      modifies this, buf
      ensures buf.Valid()
      ensures var e := VarInts.At(buf.data, old(buf.pos));
              r == Status(e.result) && buf.pos == e.next && (r.Ok? ==> threshold == e.result.value)
    {
      var t := buf.ReadVarInt();
      if t.Err? {
        return Err(t.error);
      }
      threshold := t.value;
      return Ok(());
    }
  }

  function LoginCompressionWire(threshold: int32): seq<byte>
  {
    VarInts.Encode(3) + VarInts.Encode(threshold)
  }

  /** Any threshold, negative ones included, reads back as sent. */
  lemma LoginCompressionRoundTrip(threshold: int32, data: seq<byte>, pos: nat)
    requires Codec.HasAt(data, pos, LoginCompressionWire(threshold))
    ensures VarInts.At(data, pos) == Read(Ok(3), pos + 1)
    ensures VarInts.At(data, pos + 1) == Read(Ok(threshold), pos + |LoginCompressionWire(threshold)|)
  {
    assert |VarInts.Encode(3)| == 1;
    Codec.VarIntThen(3, VarInts.Encode(threshold), data, pos, pos + 1);
    Codec.VarIntRoundTrip(threshold, data, pos + 1);
  }

  // LoginDisconnect (id 0x00, clientbound)

  class LoginDisconnect {
    var reason: seq<byte>

    constructor ()
      ensures reason == []
    {
      reason := [];
    }

    /** read: the reason is one string. */
    method Read(buf: ReadBuffers.ReadBuffer) returns (r: Result<()>)
      requires buf.Valid()
      modifies this, buf
      ensures buf.Valid()
      ensures var e := Codec.PrefixedAt(buf.data, old(buf.pos));
              r == Status(e.result) && buf.pos == e.next && (r.Ok? ==> reason == e.result.value)
    {
      var s := buf.ReadString();
      if s.Err? {
        return Err(s.error);
      }
      reason := s.value;
      return Ok(());
    }
  }

  function LoginDisconnectWire(reason: seq<byte>): seq<byte>
  {
    VarInts.Encode(0) + Codec.Prefixed(reason)
  }

  lemma LoginDisconnectRoundTrip(reason: seq<byte>, data: seq<byte>, pos: nat)
    requires Codec.Fits(reason) && Codec.HasAt(data, pos, LoginDisconnectWire(reason))
    ensures VarInts.At(data, pos) == Read(Ok(0), pos + 1)
    ensures Codec.PrefixedAt(data, pos + 1) == Read(Ok(reason), pos + |LoginDisconnectWire(reason)|)
  {
    assert |VarInts.Encode(0)| == 1;
    Codec.VarIntThen(0, Codec.Prefixed(reason), data, pos, pos + 1);
    Codec.PrefixedRoundTrip(reason, data, pos + 1);
  }

  // CustomQuery (id 0x04)

  /** CustomQuery::read: the message id, the channel, then every byte that is
      left, raw, with no length in front. */
  function CustomQueryAt(data: seq<byte>, pos: nat): Read<(int32, seq<byte>, seq<byte>)>
  {
    var m := VarInts.At(data, pos);
    if m.result.Err? then Read(Err(m.result.error), m.next) else
    var c := Codec.PrefixedAt(data, m.next);
    if c.result.Err? then Read(Err(c.result.error), c.next) else
    Read(Ok((m.result.value, c.result.value, data[c.next..])), |data|)
  }

  class CustomQuery {
    var messageId: int32
    var channel: seq<byte>
    var data: seq<byte>

    constructor ()
      ensures messageId == 0 && channel == [] && data == []
    {
      messageId, channel, data := 0, [], [];
    }

    constructor With(messageId: int32, channel: seq<byte>, data: seq<byte>)
      ensures this.messageId == messageId && this.channel == channel && this.data == data
    {
      this.messageId, this.channel, this.data := messageId, channel, data;
    }

    /** serialize: id 0x04, the message id, the channel, and the data with its length. */
    function Serialize(): (b: seq<byte>)
      reads this
      ensures |b| == 1 + |VarInts.Encode(messageId)| + |Codec.Prefixed(channel)| + |Codec.Prefixed(data)|
      ensures b[0] == 4
    {
      assert VarInts.Encode(4) == [4];
      VarInts.Encode(4) + (VarInts.Encode(messageId) + (Codec.Prefixed(channel) + Codec.Prefixed(data)))
    }

    /** read: resizes data to the bytes left and fills it one readByte at a time,
        so nothing is left to read afterwards. */
    method Read(buf: ReadBuffers.ReadBuffer) returns (r: Result<()>)
      requires buf.Valid()
      modifies this, buf
      ensures buf.Valid()
      ensures var e := CustomQueryAt(buf.data, old(buf.pos));
              r == Status(e.result) && buf.pos == e.next
              && (r.Ok? ==> (messageId, channel, data) == e.result.value && buf.Remaining() == 0)
    {
      var m := buf.ReadVarInt();
      if m.Err? {
        return Err(m.error);
      }
      messageId := m.value;
      var c := buf.ReadString();
      if c.Err? {
        return Err(c.error);
      }
      channel := c.value;
      ReadRemaining(buf);
      return Ok(());
    }

    /** The resize to remaining() and the readByte loop that fills data. */
    method ReadRemaining(buf: ReadBuffers.ReadBuffer)
      requires buf.Valid()
      modifies this`data, buf
      ensures buf.Valid() && buf.pos == |buf.data| && data == buf.data[old(buf.pos)..]
    {
      var bytesRemaining := buf.Remaining();
      var start := buf.pos;
      data := seq(bytesRemaining, _ => 0);
      var i := 0;
      while i < bytesRemaining
        invariant buf.Valid() && 0 <= i <= bytesRemaining && buf.pos == start + i
        invariant |data| == bytesRemaining && forall j :: 0 <= j < i ==> data[j] == buf.data[start + j]
      {
        var b := buf.ReadByte();
        data := data[i := b.value];
        i := i + 1;
      }
      assert data == buf.data[start..];
    }
  }

  lemma CustomQueryOf(data: seq<byte>, pos: nat, messageId: int32, channel: seq<byte>, q: nat, r: nat)
    requires VarInts.At(data, pos) == Read(Ok(messageId), q)
    requires Codec.PrefixedAt(data, q) == Read(Ok(channel), r) && r <= |data|
    ensures CustomQueryAt(data, pos) == Read(Ok((messageId, channel, data[r..])), |data|)
  {
  }

  /** Reading what serialize wrote does not give the packet back: the data comes
      back with its length prefix still in front. */
  lemma CustomQueryKeepsPrefix(q: CustomQuery)
    requires Codec.Fits(q.channel) && Codec.Fits(q.data)
    ensures var b := q.Serialize();
            VarInts.At(b, 0) == Read(Ok(4), 1)
            && CustomQueryAt(b, 1) == Read(Ok((q.messageId, q.channel, Codec.Prefixed(q.data))), |b|)
            && Codec.Prefixed(q.data) != q.data
  {
    var m, c, d := VarInts.Encode(q.messageId), Codec.Prefixed(q.channel), Codec.Prefixed(q.data);
    var b := q.Serialize();
    var q2 := 1 + |m|;
    var q3 := q2 + |c|;
    assert |VarInts.Encode(4)| == 1;
    Codec.HasAtStart(b, []);
    assert b + [] == b;
    Codec.VarIntThen(4, m + (c + d), b, 0, 1);
    Codec.VarIntThen(q.messageId, c + d, b, 1, q2);
    Codec.PrefixedThen(q.channel, d, b, q2, q3);
    Codec.HasAtSlice(b, q3, d);
    assert b[q3..] == d;
    CustomQueryOf(b, 1, q.messageId, q.channel, q2, q3);
    VarInts.EncodeLength(|q.data|);
  }

  // PongResponse (id 0x01, clientbound)

  class PongResponse {
    var timestamp: int64

    constructor ()
      ensures timestamp == 0
    {
      timestamp := 0;
    }

    /** read: one big-endian long; fewer than eight bytes left is a bounds failure. */
    method Read(buf: ReadBuffers.ReadBuffer) returns (r: Result<()>)
      requires buf.Valid()
      modifies this, buf
      ensures buf.Valid()
      ensures var e := Codec.Int64At(buf.data, old(buf.pos));
              r == Status(e.result) && buf.pos == e.next && (r.Ok? ==> timestamp == e.result.value)
      ensures r.Err? <==> old(buf.Remaining()) < 8
    {
      var t := buf.ReadLong();
      if t.Err? {
        return Err(t.error);
      }
      timestamp := t.value;
      return Ok(());
    }
  }

  function PongResponseWire(timestamp: int64): seq<byte>
  {
    VarInts.Encode(1) + Int64Bytes(timestamp)
  }

  /** Any timestamp, negative ones included, reads back as sent, in nine bytes. */
  lemma PongResponseRoundTrip(timestamp: int64, data: seq<byte>, pos: nat)
    requires Codec.HasAt(data, pos, PongResponseWire(timestamp))
    ensures |PongResponseWire(timestamp)| == 9
    ensures VarInts.At(data, pos) == Read(Ok(1), pos + 1)
    ensures Codec.Int64At(data, pos + 1) == Read(Ok(timestamp), pos + 9)
  {
    assert |VarInts.Encode(1)| == 1;
    Ints.Int64RoundTrip(timestamp);
    Codec.VarIntThen(1, Int64Bytes(timestamp), data, pos, pos + 1);
    Codec.Int64RoundTrip(timestamp, data, pos + 1);
  }
}
