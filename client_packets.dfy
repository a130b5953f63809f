// The packets the client sends (namespace mc::protocol::client): each serialize
// writes the packet id as a VarInt and then the fields, into a fresh
// WriteBuffer. The server's reading of each layout is written out beside it,
// as the reference the layout is checked against.
module ClientPackets {
  import opened Wrappers
  import opened Ints
  import VarInts
  import Codec
  import ReadBuffers

  // HandshakePacket (id 0x00, serverbound)

  datatype Handshake = Handshake(protocolVersion: int32, serverAddress: seq<byte>, port: uint16, nextState: int32)

  /** serialize: the id, then the fields in order. */
  function HandshakeBytes(h: Handshake): seq<byte>
  {
    VarInts.Encode(0) + (VarInts.Encode(h.protocolVersion) + (Codec.Prefixed(h.serverAddress)
      + (UInt16Bytes(h.port) + VarInts.Encode(h.nextState))))
  }

  /** The server's reading of a handshake body. */
  function HandshakeAt(data: seq<byte>, pos: nat): Read<Handshake>
  {
    var v := VarInts.At(data, pos);
    if v.result.Err? then Read(Err(v.result.error), v.next) else
    var a := Codec.PrefixedAt(data, v.next);
    if a.result.Err? then Read(Err(a.result.error), a.next) else
    var p := Codec.UInt16At(data, a.next);
    if p.result.Err? then Read(Err(p.result.error), p.next) else
    var s := VarInts.At(data, p.next);
    if s.result.Err? then Read(Err(s.result.error), s.next) else
    Read(Ok(Handshake(v.result.value, a.result.value, p.result.value, s.result.value)), s.next)
  }

  /** Wherever the handshake is put, the server reads its id and then version,
      address, port and next state in that order, each from its own bytes; the
      port takes exactly two. */
  lemma HandshakeRoundTrip(h: Handshake, data: seq<byte>, pos: nat)
    requires Codec.Fits(h.serverAddress) && Codec.HasAt(data, pos, HandshakeBytes(h))
    ensures |HandshakeBytes(h)| == 1 + |VarInts.Encode(h.protocolVersion)| + |Codec.Prefixed(h.serverAddress)| + 2
                                   + |VarInts.Encode(h.nextState)|
    ensures VarInts.At(data, pos) == Read(Ok(0), pos + 1)
    ensures HandshakeAt(data, pos + 1) == Read(Ok(h), pos + |HandshakeBytes(h)|)
  {
    var e1, a := VarInts.Encode(h.protocolVersion), Codec.Prefixed(h.serverAddress);
    var p, e2 := UInt16Bytes(h.port), VarInts.Encode(h.nextState);
    var q1 := pos + 1;
    var q2 := q1 + |e1|;
    var q3 := q2 + |a|;
    var q4 := q3 + 2;
    var q5 := q4 + |e2|;
    assert |VarInts.Encode(0)| == 1;
    Codec.VarIntThen(0, e1 + (a + (p + e2)), data, pos, q1);
    Codec.VarIntThen(h.protocolVersion, a + (p + e2), data, q1, q2);
    Codec.PrefixedThen(h.serverAddress, p + e2, data, q2, q3);
    Codec.UInt16Then(h.port, e2, data, q3, q4);
    assert e2 + [] == e2;
    Codec.VarIntThen(h.nextState, [], data, q4, q5);
    HandshakeOf(data, q1, h, q2, q3, q4, q5);
  }

  /** HandshakeAt from the reads of its four fields. */
  lemma HandshakeOf(data: seq<byte>, pos: nat, h: Handshake, q1: nat, q2: nat, q3: nat, q4: nat)
    requires VarInts.At(data, pos) == Read(Ok(h.protocolVersion), q1)
    requires Codec.PrefixedAt(data, q1) == Read(Ok(h.serverAddress), q2)
    requires Codec.UInt16At(data, q2) == Read(Ok(h.port), q3)
    requires VarInts.At(data, q3) == Read(Ok(h.nextState), q4)
    ensures HandshakeAt(data, pos) == Read(Ok(h), q4)
  {
  }

  // LoginStart (id 0x00, serverbound)

  datatype LoginStart = LoginStart(username: seq<byte>, uuid: seq<byte>)

  /** The default constructor: an empty name and an all-zero uuid. */
  const DEFAULT_LOGIN_START: LoginStart := LoginStart([], seq(16, _ => 0))

  function LoginStartBytes(p: LoginStart): seq<byte>
    requires |p.uuid| == 16
  {
    VarInts.Encode(0) + Codec.Prefixed(p.username) + p.uuid
  }

  /** The uuid follows the name as 16 raw bytes, with no length in front. */
  lemma LoginStartLayout(p: LoginStart)
    requires Codec.Fits(p.username) && |p.uuid| == 16
    ensures var b := LoginStartBytes(p);
            |b| == 1 + |VarInts.Encode(|p.username|)| + |p.username| + 16
            && b[0] == 0
            && Codec.PrefixedAt(b, 1) == Read(Ok(p.username), |b| - 16)
            && b[|b| - 16..] == p.uuid
  {
    var e0, u := VarInts.Encode(0), Codec.Prefixed(p.username);
    var b := LoginStartBytes(p);
    assert e0 == [0];
    Codec.HasAtStart(b, []);
    assert b + [] == b;
    Codec.HasAtSplit(b, 0, e0 + u, p.uuid);
    Codec.HasAtSplit(b, 0, e0, u);
    Codec.PrefixedRoundTrip(p.username, b, 1);
    assert b[|b| - 16..] == p.uuid;
  }

  /** The default LoginStart serialises to the id, a zero length and 16 zeros. */
  lemma DefaultLoginStartBytes()
    ensures LoginStartBytes(DEFAULT_LOGIN_START) == [0, 0] + seq(16, _ => 0)
  {
    assert VarInts.Encode(0) == [0];
    assert Codec.Prefixed([]) == [0];
  }

  // EncryptionResponse (id 0x01, serverbound)

  datatype EncryptionResponse = EncryptionResponse(encryptedSecret: seq<byte>, encryptedToken: seq<byte>)

  function EncryptionResponseBytes(p: EncryptionResponse): seq<byte>
  {
    VarInts.Encode(1) + (Codec.Prefixed(p.encryptedSecret) + Codec.Prefixed(p.encryptedToken))
  }

  /** The server's reading of an encryption response body. */
  function EncryptionResponseAt(data: seq<byte>, pos: nat): Read<EncryptionResponse>
  {
    var s := Codec.PrefixedAt(data, pos);
    if s.result.Err? then Read(Err(s.result.error), s.next) else
    var t := Codec.PrefixedAt(data, s.next);
    if t.result.Err? then Read(Err(t.result.error), t.next) else
    Read(Ok(EncryptionResponse(s.result.value, t.result.value)), t.next)
  }

  /** Both fields are length-prefixed, secret first. */
  lemma EncryptionResponseRoundTrip(p: EncryptionResponse, data: seq<byte>, pos: nat)
    requires Codec.Fits(p.encryptedSecret) && Codec.Fits(p.encryptedToken)
    requires Codec.HasAt(data, pos, EncryptionResponseBytes(p))
    ensures VarInts.At(data, pos) == Read(Ok(1), pos + 1)
    ensures EncryptionResponseAt(data, pos + 1) == Read(Ok(p), pos + |EncryptionResponseBytes(p)|)
  {
    var s, t := Codec.Prefixed(p.encryptedSecret), Codec.Prefixed(p.encryptedToken);
    var q1 := pos + 1;
    var q2 := q1 + |s|;
    var q3 := q2 + |t|;
    assert |VarInts.Encode(1)| == 1;
    Codec.VarIntThen(1, s + t, data, pos, q1);
    Codec.PrefixedThen(p.encryptedSecret, t, data, q1, q2);
    assert t + [] == t;
    Codec.PrefixedThen(p.encryptedToken, [], data, q2, q3);
    EncryptionResponseOf(data, q1, p, q2, q3);
  }

  /** EncryptionResponseAt from the reads of its two fields. */
  lemma EncryptionResponseOf(data: seq<byte>, pos: nat, p: EncryptionResponse, q1: nat, q2: nat)
    requires Codec.PrefixedAt(data, pos) == Read(Ok(p.encryptedSecret), q1)
    requires Codec.PrefixedAt(data, q1) == Read(Ok(p.encryptedToken), q2)
    ensures EncryptionResponseAt(data, pos) == Read(Ok(p), q2)
  {
  }

  // LoginAcknowledged (id 0x03, serverbound)

  function LoginAcknowledgedBytes(): seq<byte>
  {
    VarInts.Encode(3)
  }

  /** The acknowledgement is the single byte 0x03. */
  lemma LoginAcknowledgedIsOneByte()
    ensures LoginAcknowledgedBytes() == [0x03]
  {
  }

  // PingRequest (id 0x01, serverbound)

  /** The default timestamp is 0. */
  const DEFAULT_PING_TIMESTAMP: int64 := 0

  function PingRequestBytes(timestamp: int64): seq<byte>
  {
    VarInts.Encode(1) + Int64Bytes(timestamp)
  }

  /** A ping is always nine bytes: the id and the timestamp as a big-endian long. */
  lemma PingRequestLayout(timestamp: int64)
    ensures var b := PingRequestBytes(timestamp);
            |b| == 9 && b[0] == 1 && Codec.Int64At(b, 1) == Read(Ok(timestamp), 9)
  {
    var b := PingRequestBytes(timestamp);
    Ints.Int64RoundTrip(timestamp);
    assert VarInts.Encode(1) == [1];
    assert b[1..9] == Int64Bytes(timestamp);
  }

  // CookieResponse (id 0x04, serverbound)

  /** CookieResponse: a key and an optional payload; read fills both. */
  class CookieResponse {
    var key: seq<byte>
    var payload: Option<seq<byte>>

    constructor ()
      ensures key == [] && payload == None
    {
      key := [];
      payload := None;
    }

    /** serialize: the id, the key, then the payload, which must be present. */
    function Serialize(): (r: Result<seq<byte>>)
      reads this
      ensures r.Err? <==> payload.None?
      ensures r.Err? ==> r.error == BadOptionalAccess
    {
      if payload.None? then Err(BadOptionalAccess)
      else Ok(VarInts.Encode(4) + (Codec.Prefixed(key) + Codec.Prefixed(payload.value)))
    }

    /** read: the key string, then the payload byte array. */
    method Read(buf: ReadBuffers.ReadBuffer) returns (r: Result<()>)
      requires buf.Valid()
      modifies this, buf
      ensures buf.Valid()
      ensures var e := CookieResponseAt(buf.data, old(buf.pos));
              r == Status(e.result) && buf.pos == e.next
              && (r.Ok? ==> key == e.result.value.0 && payload == Some(e.result.value.1))
    {
      var k := buf.ReadString();
      if k.Err? {
        return Err(k.error);
      }
      key := k.value;
      var p := buf.ReadByteArray();
      if p.Err? {
        return Err(p.error);
      }
      payload := Some(p.value);
      return Ok(());
    }
  }

  /** What CookieResponse::read takes: the key, then the payload. */
  function CookieResponseAt(data: seq<byte>, pos: nat): Read<(seq<byte>, seq<byte>)>
  {
    var k := Codec.PrefixedAt(data, pos);
    if k.result.Err? then Read(Err(k.result.error), k.next) else
    var p := Codec.PrefixedAt(data, k.next);
    if p.result.Err? then Read(Err(p.result.error), p.next) else
    Read(Ok((k.result.value, p.result.value)), p.next)
  }

  /** Reading what serialize wrote, after the id, restores key and payload. */
  lemma CookieResponseRoundTrip(c: CookieResponse, data: seq<byte>, pos: nat)
    requires Codec.Fits(c.key) && c.payload.Some? && Codec.Fits(c.payload.value)
    requires Codec.HasAt(data, pos, VarInts.Encode(4) + (Codec.Prefixed(c.key) + Codec.Prefixed(c.payload.value)))
    ensures c.Serialize() == Ok(VarInts.Encode(4) + (Codec.Prefixed(c.key) + Codec.Prefixed(c.payload.value)))
    ensures VarInts.At(data, pos) == Read(Ok(4), pos + 1)
    ensures CookieResponseAt(data, pos + 1) == Read(Ok((c.key, c.payload.value)), pos + |c.Serialize().value|)
  {
    var k, p := Codec.Prefixed(c.key), Codec.Prefixed(c.payload.value);
    var q1 := pos + 1;
    var q2 := q1 + |k|;
    var q3 := q2 + |p|;
    assert |VarInts.Encode(4)| == 1;
    Codec.VarIntThen(4, k + p, data, pos, q1);
    Codec.PrefixedThen(c.key, p, data, q1, q2);
    assert p + [] == p;
    Codec.PrefixedThen(c.payload.value, [], data, q2, q3);
    CookieResponseOf(data, q1, c.key, c.payload.value, q2, q3);
  }

  /** CookieResponseAt from the reads of its two fields. */
  lemma CookieResponseOf(data: seq<byte>, pos: nat, key: seq<byte>, payload: seq<byte>, q1: nat, q2: nat)
    requires Codec.PrefixedAt(data, pos) == Read(Ok(key), q1)
    requires Codec.PrefixedAt(data, q1) == Read(Ok(payload), q2)
    ensures CookieResponseAt(data, pos) == Read(Ok((key, payload)), q2)
  {
  }
}
