// The login sequence of main.cpp: handshake and login start, the first login
// packet, the packets that follow encryption, and the acknowledgement, each
// over the same Socket. What the server sends is the socket's script; what
// each stage does with it is written out as a function of the frames it
// receives, and the stage methods are proved to do exactly that.
module Login {
  import opened Wrappers
  import opened Ints
  import VarInts
  import Codec
  import Framing
  import Sockets
  import BufferUtils
  import ServerPackets
  import ClientPackets
  import Uuid
  import LoginHandlers

  type Event = LoginHandlers.Event

  const PROTOCOL_VERSION: int32 := 770
  const LOGIN_STATE: int32 := 2
  const DEFAULT_PORT: int := 25565

  /** The login packet ids main.cpp switches on. */
  const DISCONNECT: int32 := 0
  const ENCRYPTION_REQUEST: int32 := 1
  const LOGIN_SUCCESS: int32 := 2
  const LOGIN_COMPRESSION: int32 := 3

  /** The ids of the packets read, in order. */
  function Gots(events: seq<Event>): seq<int32>
  {
    if events == [] then []
    else (if events[0].Got? then [events[0].id] else []) + Gots(events[1..])
  }

  lemma {:induction false} GotsConcat(a: seq<Event>, b: seq<Event>)
    ensures Gots(a + b) == Gots(a) + Gots(b)
    decreases |a|
  {
    if a == [] {
      assert a + b == b;
    } else {
      assert (a + b)[0] == a[0];
      assert (a + b)[1..] == a[1..] + b;
      GotsConcat(a[1..], b);
    }
  }

  /** Events that are neither reads nor exceptions add no ids and keep a run clean. */
  lemma {:induction false} QuietEvents(events: seq<Event>)
    requires forall i :: 0 <= i < |events| ==> !events[i].Got? && !events[i].Threw?
    ensures Gots(events) == [] && Clean(events)
    decreases |events|
  {
    if events != [] {
      assert forall i :: 0 <= i < |events[1..]| ==> events[1..][i] == events[i + 1];
      QuietEvents(events[1..]);
    }
  }

  /** No exception reached main. */
  predicate Clean(events: seq<Event>)
  {
    forall i :: 0 <= i < |events| ==> !events[i].Threw?
  }

  /** processLoginPacket returns true for these ids. */
  predicate Continues(id: int32)
  {
    id == ENCRYPTION_REQUEST || id == LOGIN_SUCCESS || id == LOGIN_COMPRESSION
  }

  /** processPostEncryptionPackets returns true for these id sequences. */
  predicate PostAccepts(ids: seq<int32>)
  {
    ids == [LOGIN_SUCCESS] || ids == [LOGIN_COMPRESSION, LOGIN_SUCCESS]
  }

  /** The packet ids of a login that main carries to the acknowledgement. */
  predicate Accepts(ids: seq<int32>)
  {
    |ids| >= 1 && Continues(ids[0]) && PostAccepts(ids[1..])
  }

  /** Exactly the id sequences 1,2 / 1,3,2 / 2,2 / 2,3,2 / 3,2 / 3,3,2 are
      accepted. In particular a server that answers login start with
      LoginFinished alone, as an offline server without compression does, is
      not: the client then waits for a second packet. */
  lemma AcceptedSequences(ids: seq<int32>)
    ensures Accepts(ids) <==> |ids| >= 2 && ids[0] in {1, 2, 3}
                              && (ids[1..] == [2] || ids[1..] == [3, 2])
    ensures !Accepts([LOGIN_SUCCESS])
  {
  }

  /** The handshake main sends: protocol 770, the address, the default port, next state login. */
  function HandshakeOf(address: seq<byte>): ClientPackets.Handshake
  {
    ClientPackets.Handshake(PROTOCOL_VERSION, address, DEFAULT_PORT as uint16, LOGIN_STATE)
  }

  /** Frames sent with neither compression nor encryption on. */
  function PlainFrames(events: seq<Event>): seq<seq<byte>>
  {
    if events == [] then []
    else (if events[0].Sent? then [Framing.Frame(events[0].packet)] else []) + PlainFrames(events[1..])
  }

  /** The connection is not yet compressing or encrypting. */
  predicate Plain(socket: Sockets.Socket)
    reads socket
  {
    !socket.Decrypting() && socket.compressionThreshold < 0
  }

  /** socket.sendPacket(packet), with what it writes on a connection that does
      not yet compress or encrypt. */
  method Send(socket: Sockets.Socket, packet: seq<byte>)
    requires socket.Valid()
    modifies socket, socket.cipher
    ensures socket.Valid() && socket.pending == old(socket.pending)
    ensures socket.cipher == old(socket.cipher) && socket.encryptionEnabled == old(socket.encryptionEnabled)
    ensures socket.compressionThreshold == old(socket.compressionThreshold)
    ensures old(socket.sent) <= socket.sent
    ensures old(Plain(socket)) ==> socket.sent == old(socket.sent) + [Framing.Frame(packet)]
  {
    if socket.compressionThreshold < 0 {
      Framing.PassThrough(socket.compressionThreshold, socket.zlib, packet);
    }
    socket.SendPacket(packet);
  }

  /** sendHandshakeAndLogin: the handshake goes out before the uuid is parsed, so
      a malformed uuid still leaves the handshake sent. */
  method SendHandshakeAndLogin(socket: Sockets.Socket, address: seq<byte>, username: seq<byte>, uuid: string)
    returns (r: Result<()>, events: seq<Event>)
    requires socket.Valid()
    modifies socket, socket.cipher
    ensures socket.Valid() && socket.pending == old(socket.pending)
    ensures socket.cipher == old(socket.cipher) && socket.encryptionEnabled == old(socket.encryptionEnabled)
    ensures socket.compressionThreshold == old(socket.compressionThreshold)
    ensures r == Status(Uuid.ParseDashless(uuid))
    ensures events == [LoginHandlers.Sent(ClientPackets.HandshakeBytes(HandshakeOf(address)))]
                      + if r.Err? then []
                        else [LoginHandlers.Sent(ClientPackets.LoginStartBytes(
                                ClientPackets.LoginStart(username, Uuid.ParseDashless(uuid).value)))]
    ensures old(socket.sent) <= socket.sent
    ensures old(Plain(socket)) ==> socket.sent == old(socket.sent) + PlainFrames(events)
  {
    var handshake := ClientPackets.HandshakeBytes(HandshakeOf(address));
    Send(socket, handshake);
    events := [LoginHandlers.Sent(handshake)];
    assert PlainFrames(events) == [Framing.Frame(handshake)];
    var uuidBytes := Uuid.ParseDashless(uuid);
    if uuidBytes.Err? {
      return Err(uuidBytes.error), events;
    }
    var loginStart := ClientPackets.LoginStartBytes(ClientPackets.LoginStart(username, uuidBytes.value));
    Send(socket, loginStart);
    events := events + [LoginHandlers.Sent(loginStart)];
    assert PlainFrames(events[1..]) == [Framing.Frame(loginStart)];
    r := Ok(());
  }

  /** The end of a login packet other than the encryption request and the
      compression: a disconnect reads its reason and stops, a login success reads
      the packet and goes on, any other id stops. */
  function Settle(frame: seq<byte>, id: int32, next: nat): Result<bool>
  {
    if id == DISCONNECT then
      var reason := Codec.PrefixedAt(frame, next);
      if reason.result.Err? then Err(reason.result.error) else Ok(false)
    else if id == LOGIN_SUCCESS then
      var finished := ServerPackets.LoginFinishedAt(frame, next, []);
      if finished.result.Err? then Err(finished.result.error) else Ok(true)
    else Ok(false)
  }

  /** processLoginPacket on the frame recvPacket returned: the events and either
      the result or the exception. */
  function LoginReply(frame: Result<seq<byte>>, env: LoginHandlers.Services, mcToken: string, uuid: string,
                      secret: seq<byte>): (seq<Event>, Result<bool>)
  {
    match frame
    case Err(e) => ([], Err(e))
    case Ok(f) =>
      var id := VarInts.At(f, 0);
      match id.result
      case Err(e) => ([], Err(e))
      case Ok(p) =>
        var got := [LoginHandlers.Got(p)];
        if p == ENCRYPTION_REQUEST then
          var q := ServerPackets.EncryptionRequestAt(f, id.next);
          match q.result
          case Err(e) => (got, Err(e))
          case Ok((serverId, publicKey, verifyToken)) =>
            var t := LoginHandlers.EncryptionTurn(env, mcToken, uuid, secret,
                                                 LoginHandlers.Request(serverId, publicKey, verifyToken));
            (got + t.0, if t.1.Err? then Err(t.1.error) else Ok(true))
        else if p == LOGIN_COMPRESSION then
          var threshold := VarInts.At(f, id.next);
          match threshold.result
          case Err(e) => (got, Err(e))
          case Ok(v) => (got + [LoginHandlers.CompressionSet(v)], Ok(true))
        else (got, Settle(f, p, id.next))
  }

  /** The frame after a login compression in processPostEncryptionPackets:
      only a login success carries on. */
  function SuccessReply(frame: Result<seq<byte>>): (seq<Event>, Result<bool>)
  {
    match frame
    case Err(e) => ([], Err(e))
    case Ok(f) =>
      var id := VarInts.At(f, 0);
      match id.result
      case Err(e) => ([], Err(e))
      case Ok(p) => ([LoginHandlers.Got(p)], Settle(f, p, id.next))
  }

  /** processPostEncryptionPackets on the plain stream s, received with the
      threshold in force: a compression packet sets the threshold the next
      frame is then received with. */
  function PostReply(s: seq<byte>, threshold: int32, z: Framing.Zlib): (seq<Event>, Result<bool>)
  {
    var e := Sockets.PacketFrom(s, threshold, z);
    match e.result
    case Err(err) => ([], Err(err))
    case Ok(f) =>
      var id := VarInts.At(f, 0);
      match id.result
      case Err(err) => ([], Err(err))
      case Ok(p) =>
        var got := [LoginHandlers.Got(p)];
        if p == LOGIN_COMPRESSION then
          var t := VarInts.At(f, id.next);
          match t.result
          case Err(err) => (got, Err(err))
          case Ok(v) =>
            var after := SuccessReply(Sockets.PacketFrom(s[e.next..], v, z).result);
            (got + [LoginHandlers.CompressionSet(v)] + after.0, after.1)
        else (got, Settle(f, p, id.next))
  }

  lemma TurnEvents(env: LoginHandlers.Services, mcToken: string, uuid: string, secret: seq<byte>, q: LoginHandlers.Request)
    ensures var t := LoginHandlers.EncryptionTurn(env, mcToken, uuid, secret, q);
            Gots(t.0) == [] && Clean(t.0)
  {
    var t := LoginHandlers.EncryptionTurn(env, mcToken, uuid, secret, q);
    QuietEvents(t.0);
  }

  /** processLoginPacket reads one packet id, and returns true exactly for an
      encryption request, a login success or a compression packet that it could
      handle; it raises nothing of its own. */
  lemma LoginReplyShape(frame: Result<seq<byte>>, env: LoginHandlers.Services, mcToken: string, uuid: string,
                        secret: seq<byte>)
    ensures var (events, r) := LoginReply(frame, env, mcToken, uuid, secret);
            Clean(events) && |Gots(events)| <= 1
            && (r.Ok? ==> |Gots(events)| == 1 && r.value == Continues(Gots(events)[0]))
  {
    if frame.Ok? {
      var f := frame.value;
      var id := VarInts.At(f, 0);
      if id.result.Ok? {
        var p := id.result.value;
        var got := [LoginHandlers.Got(p)];
        if p == ENCRYPTION_REQUEST {
          var q := ServerPackets.EncryptionRequestAt(f, id.next);
          if q.result.Ok? {
            var (serverId, publicKey, verifyToken) := q.result.value;
            var rq := LoginHandlers.Request(serverId, publicKey, verifyToken);
            var t := LoginHandlers.EncryptionTurn(env, mcToken, uuid, secret, rq);
            TurnEvents(env, mcToken, uuid, secret, rq);
            GotsConcat(got, t.0);
          }
        } else if p == LOGIN_COMPRESSION {
          var threshold := VarInts.At(f, id.next);
          if threshold.result.Ok? {
            GotsConcat(got, [LoginHandlers.CompressionSet(threshold.result.value)]);
          }
        }
      }
    }
  }

  lemma SuccessReplyShape(frame: Result<seq<byte>>)
    ensures var (events, r) := SuccessReply(frame);
            Clean(events) && |Gots(events)| <= 1
            && (r.Ok? ==> |Gots(events)| == 1 && r.value == (Gots(events)[0] == LOGIN_SUCCESS))
  {
  }

  /** processPostEncryptionPackets returns true exactly for a login success, or a
      compression packet followed by a login success, all of which it could read. */
  lemma PostReplyShape(s: seq<byte>, threshold: int32, z: Framing.Zlib)
    ensures var (events, r) := PostReply(s, threshold, z);
            Clean(events) && (r.Ok? ==> r.value == PostAccepts(Gots(events)))
  {
    var e := Sockets.PacketFrom(s, threshold, z);
    if e.result.Ok? {
      var f := e.result.value;
      var id := VarInts.At(f, 0);
      if id.result.Ok? && id.result.value == LOGIN_COMPRESSION {
        var t := VarInts.At(f, id.next);
        if t.result.Ok? {
          var v := t.result.value;
          var after := SuccessReply(Sockets.PacketFrom(s[e.next..], v, z).result);
          SuccessReplyShape(Sockets.PacketFrom(s[e.next..], v, z).result);
          var head := [LoginHandlers.Got(LOGIN_COMPRESSION)] + [LoginHandlers.CompressionSet(v)];
          GotsConcat([LoginHandlers.Got(LOGIN_COMPRESSION)], [LoginHandlers.CompressionSet(v)]);
          QuietEvents([LoginHandlers.CompressionSet(v)]);
          assert Gots([LoginHandlers.Got(LOGIN_COMPRESSION)]) == [LOGIN_COMPRESSION];
          GotsConcat(head, after.0);
          CleanConcat(head, after.0);
          if after.1.Ok? {
            var g := Gots(after.0);
            assert [LOGIN_COMPRESSION] + g == [LOGIN_COMPRESSION, g[0]];
          }
        }
      } else if id.result.Ok? {
        assert Gots([LoginHandlers.Got(id.result.value)]) == [id.result.value];
      }
    }
  }

  /** handleLoginSuccess: LoginFinished::read of src/protocol/client/login_finished.hpp over the reader; the
      uuid it yields is 16 bytes, so formatting it cannot fail. */
  function LoginSuccessStatus(reader: BufferUtils.BufferUtil): Result<()>
    reads reader
  {
    Status(ServerPackets.LoginFinishedAt(reader.buffer, reader.readPos, []).result)
  }

  /** The disconnect, login success and default cases both packet switches share. */
  method SettleWith(reader: BufferUtils.BufferUtil, id: int32) returns (r: Result<bool>)
    requires reader.Valid()
    modifies reader
    ensures r == Settle(old(reader.buffer), id, old(reader.readPos))
  {
    if id == DISCONNECT {
      var reason := reader.ReadString();
      if reason.Err? {
        return Err(reason.error);
      }
      return Ok(false);
    } else if id == LOGIN_SUCCESS {
      var finished := LoginSuccessStatus(reader);
      if finished.Err? {
        return Err(finished.error);
      }
      return Ok(true);
    }
    return Ok(false);
  }

  /** handleLoginCompression: the threshold is a VarInt, set on the socket. */
  method HandleLoginCompression(socket: Sockets.Socket, reader: BufferUtils.BufferUtil)
    returns (r: Result<int32>)
    requires socket.Valid() && reader.Valid()
    modifies socket, reader
    ensures socket.Valid() && reader.Valid() && reader.buffer == old(reader.buffer)
    ensures Read(r, reader.readPos) == VarInts.At(reader.buffer, old(reader.readPos))
    ensures socket.compressionThreshold == if r.Ok? then r.value else old(socket.compressionThreshold)
    ensures socket.sent == old(socket.sent) && socket.cipher == old(socket.cipher)
    ensures socket.encryptionEnabled == old(socket.encryptionEnabled) && socket.pending == old(socket.pending)
  {
    r := reader.ReadVarInt();
    if r.Err? {
      return;
    }
    socket.SetCompressionThreshold(r.value);
  }

  /** handleEncryptionRequest: the three fields, then the exchange. */
  method HandleEncryptionRequest(socket: Sockets.Socket, reader: BufferUtils.BufferUtil, mcToken: string,
                                 uuid: string, env: LoginHandlers.Services, secret: seq<byte>)
    returns (r: Result<()>, events: seq<Event>)
    requires socket.Valid() && reader.Valid()
    modifies socket, socket.cipher, reader
    ensures socket.Valid() && old(socket.sent) <= socket.sent
    ensures socket.cipher == old(socket.cipher) || fresh(socket.cipher)
    ensures socket.compressionThreshold == old(socket.compressionThreshold)
    ensures var q := ServerPackets.EncryptionRequestAt(old(reader.buffer), old(reader.readPos));
            match q.result
            case Err(e) => r == Err(e) && events == []
            case Ok((serverId, publicKey, verifyToken)) =>
              (events, r) == LoginHandlers.EncryptionTurn(env, mcToken, uuid, secret,
                                                          LoginHandlers.Request(serverId, publicKey, verifyToken))
  {
    var serverId := reader.ReadString();
    if serverId.Err? {
      return Err(serverId.error), [];
    }
    var publicKey := reader.ReadByteArray();
    if publicKey.Err? {
      return Err(publicKey.error), [];
    }
    var verifyToken := reader.ReadByteArray();
    if verifyToken.Err? {
      return Err(verifyToken.error), [];
    }
    var q := LoginHandlers.Request(serverId.value, publicKey.value, verifyToken.value);
    r, events := LoginHandlers.EncryptionExchange(socket, q, mcToken, uuid, env, secret);
  }

  /** recvPacket, a BufferUtil over the packet, and readVarInt of the id, which
      each of the packet switches of main.cpp begins with. */
  method NextPacket(socket: Sockets.Socket) returns (r: Result<int32>, reader: BufferUtils.BufferUtil)
    requires socket.Valid()
    modifies socket, socket.cipher
    ensures socket.Valid() && socket.Kept() && fresh(reader) && reader.Valid()
    ensures var e := Sockets.PacketFrom(old(socket.pending), old(socket.compressionThreshold), socket.zlib);
            socket.pending == old(socket.pending)[e.next..]
            && match e.result
               case Err(err) => r == Err(err)
               case Ok(f) => reader.buffer == f && Read(r, reader.readPos) == VarInts.At(f, 0)
  {
    var packet := socket.RecvPacket();
    if packet.Err? {
      reader := new BufferUtils.BufferUtil.FromData([]);
      return Err(packet.error), reader;
    }
    reader := new BufferUtils.BufferUtil.FromData(packet.value);
    r := reader.ReadVarInt();
  }

  /** processLoginPacket. */
  method ProcessLoginPacket(socket: Sockets.Socket, mcToken: string, uuid: string,
                            env: LoginHandlers.Services, secret: seq<byte>)
    returns (r: Result<bool>, events: seq<Event>)
    requires socket.Valid()
    modifies socket, socket.cipher
    ensures socket.Valid() && old(socket.sent) <= socket.sent
    ensures socket.cipher == old(socket.cipher) || fresh(socket.cipher)
    ensures var e := Sockets.PacketFrom(old(socket.pending), old(socket.compressionThreshold), socket.zlib);
            (events, r) == LoginReply(e.result, env, mcToken, uuid, secret)
  {
    ghost var e := Sockets.PacketFrom(socket.pending, socket.compressionThreshold, socket.zlib);
    var id, reader := NextPacket(socket);
    if id.Err? {
      return Err(id.error), [];
    }
    ghost var f := e.result.value;
    assert reader.buffer == f;
    events := [LoginHandlers.Got(id.value)];
    if id.value == ENCRYPTION_REQUEST {
      ghost var q := ServerPackets.EncryptionRequestAt(f, reader.readPos);
      var rest, more := HandleEncryptionRequest(socket, reader, mcToken, uuid, env, secret);
      events := events + more;
      r := if rest.Err? then Err(rest.error) else Ok(true);
      if q.result.Err? {
        assert events == [LoginHandlers.Got(id.value)];
      }
    } else if id.value == LOGIN_COMPRESSION {
      var threshold := HandleLoginCompression(socket, reader);
      if threshold.Err? {
        return Err(threshold.error), events;
      }
      events := events + [LoginHandlers.CompressionSet(threshold.value)];
      r := Ok(true);
    } else {
      r := SettleWith(reader, id.value);
    }
  }

  /** The inner switch of processPostEncryptionPackets, after a compression packet. */
  method ReceiveLoginSuccess(socket: Sockets.Socket) returns (r: Result<bool>, events: seq<Event>)
    requires socket.Valid()
    modifies socket, socket.cipher
    ensures socket.Valid() && socket.Kept()
    ensures (events, r) == SuccessReply(Sockets.PacketFrom(old(socket.pending), old(socket.compressionThreshold), socket.zlib).result)
  {
    var id, reader := NextPacket(socket);
    if id.Err? {
      return Err(id.error), [];
    }
    events := [LoginHandlers.Got(id.value)];
    r := SettleWith(reader, id.value);
  }

  /** processPostEncryptionPackets. */
  method ProcessPostEncryptionPackets(socket: Sockets.Socket) returns (r: Result<bool>, events: seq<Event>)
    requires socket.Valid()
    modifies socket, socket.cipher
    ensures socket.Valid() && socket.sent == old(socket.sent)
    ensures socket.cipher == old(socket.cipher) && socket.encryptionEnabled == old(socket.encryptionEnabled)
    ensures (events, r) == PostReply(old(socket.pending), old(socket.compressionThreshold), socket.zlib)
  {
    ghost var e := Sockets.PacketFrom(socket.pending, socket.compressionThreshold, socket.zlib);
    var id, reader := NextPacket(socket);
    if id.Err? {
      return Err(id.error), [];
    }
    ghost var f := e.result.value;
    assert reader.buffer == f;
    events := [LoginHandlers.Got(id.value)];
    if id.value == LOGIN_COMPRESSION {
      var threshold := HandleLoginCompression(socket, reader);
      if threshold.Err? {
        return Err(threshold.error), events;
      }
      events := events + [LoginHandlers.CompressionSet(threshold.value)];
      var more;
      r, more := ReceiveLoginSuccess(socket);
      events := events + more;
    } else {
      r := SettleWith(reader, id.value);
    }
  }

  /** processPostEncryptionPackets and, when it returns true, the acknowledgement. */
  method FinishLogin(socket: Sockets.Socket) returns (code: int, events: seq<Event>)
    requires socket.Valid()
    modifies socket, socket.cipher
    ensures old(socket.sent) <= socket.sent && socket.cipher == old(socket.cipher)
    ensures code == 0 || code == 1
    ensures code == 0 <==> PostAccepts(Gots(events)) && Clean(events)
    ensures code == 0 ==> |events| >= 1 && events[|events| - 1] == LoginHandlers.Sent(ClientPackets.LoginAcknowledgedBytes())
  {
    ghost var s, t := socket.pending, socket.compressionThreshold;
    var post, received := ProcessPostEncryptionPackets(socket);
    PostReplyShape(s, t, socket.zlib);
    if post.Err? {
      Threw(received, post.error);
      return 1, received + [LoginHandlers.Threw(post.error)];
    }
    if !post.value {
      return 1, received;
    }
    var ack := ClientPackets.LoginAcknowledgedBytes();
    Send(socket, ack);
    events := received + [LoginHandlers.Sent(ack)];
    GotsConcat(received, [LoginHandlers.Sent(ack)]);
    QuietEvents([LoginHandlers.Sent(ack)]);
    CleanConcat(received, [LoginHandlers.Sent(ack)]);
    code := 0;
  }

  /** A first stage that read one id main continues on is accepted with what
      follows exactly when what follows is. */
  lemma AcceptsAfter(first: seq<Event>, rest: seq<Event>)
    requires |Gots(first)| == 1 && Continues(Gots(first)[0])
    ensures Accepts(Gots(first + rest)) == PostAccepts(Gots(rest))
  {
    GotsConcat(first, rest);
    assert (Gots(first) + Gots(rest))[1..] == Gots(rest);
  }

  /** The two packet stages of main and the acknowledgement; the exit code is
      0 exactly when both stages return true, and 1 on false or an exception. */
  method LoginStages(socket: Sockets.Socket, mcToken: string, uuid: string,
                     env: LoginHandlers.Services, secret: seq<byte>)
    returns (code: int, events: seq<Event>)
    requires socket.Valid()
    modifies socket, socket.cipher
    ensures old(socket.sent) <= socket.sent
    ensures socket.cipher == old(socket.cipher) || fresh(socket.cipher)
    ensures code == 0 || code == 1
    ensures code == 0 <==> Accepts(Gots(events)) && Clean(events)
    ensures code == 0 ==> |events| >= 1 && events[|events| - 1] == LoginHandlers.Sent(ClientPackets.LoginAcknowledgedBytes())
  {
    ghost var s, t := socket.pending, socket.compressionThreshold;
    var login, first := ProcessLoginPacket(socket, mcToken, uuid, env, secret);
    LoginReplyShape(Sockets.PacketFrom(s, t, socket.zlib).result, env, mcToken, uuid, secret);
    if login.Err? {
      Threw(first, login.error);
      return 1, first + [LoginHandlers.Threw(login.error)];
    }
    if !login.value {
      return 1, first;
    }
    var rest;
    code, rest := FinishLogin(socket);
    events := first + rest;
    AcceptsAfter(first, rest);
    CleanConcat(first, rest);
  }

  /** main once the tokens are known: a fresh socket over the connection's
      script, the handshake and login start, the two packet stages, and the
      acknowledgement. An exception anywhere is caught and the exit code is 1. */
  method Run(zlib: Framing.Zlib, incoming: seq<seq<byte>>, address: seq<byte>, username: seq<byte>,
             mcToken: string, uuid: string, env: LoginHandlers.Services, secret: seq<byte>)
    returns (code: int, events: seq<Event>, socket: Sockets.Socket)
    ensures code == 0 || code == 1
    ensures code == 0 <==> Accepts(Gots(events)) && Clean(events)
    ensures code == 0 ==> events[|events| - 1] == LoginHandlers.Sent(ClientPackets.LoginAcknowledgedBytes())
    ensures |events| >= 1 && events[0] == LoginHandlers.Sent(ClientPackets.HandshakeBytes(HandshakeOf(address)))
    ensures socket.sent != [] && socket.sent[0] == Framing.Frame(ClientPackets.HandshakeBytes(HandshakeOf(address)))
  {
    socket := new Sockets.Socket(zlib, incoming);
    var sent, start := SendHandshakeAndLogin(socket, address, username, uuid);
    assert socket.sent[0] == PlainFrames(start)[0];
    QuietEvents(start);
    if sent.Err? {
      Threw(start, sent.error);
      return 1, start + [LoginHandlers.Threw(sent.error)], socket;
    }
    var rest;
    code, rest := LoginStages(socket, mcToken, uuid, env, secret);
    GotsConcat(start, rest);
    CleanConcat(start, rest);
    events := start + rest;
    assert Gots(events) == Gots(rest) && (Clean(events) <==> Clean(rest));
  }

  /** An exception ends the run unclean. */
  lemma Threw(events: seq<Event>, e: Error)
    ensures !Clean(events + [LoginHandlers.Threw(e)])
  {
    assert (events + [LoginHandlers.Threw(e)])[|events|].Threw?;
  }

  lemma CleanConcat(a: seq<Event>, b: seq<Event>)
    ensures Clean(a + b) <==> Clean(a) && Clean(b)
  {
    if Clean(a) && Clean(b) {
      forall i | 0 <= i < |a + b|
        ensures !(a + b)[i].Threw?
      {
        if i >= |a| {
          assert (a + b)[i] == b[i - |a|];
        }
      }
    }
    if Clean(a + b) {
      forall i | 0 <= i < |a|
        ensures !a[i].Threw?
      {
        assert (a + b)[i] == a[i];
      }
      forall i | 0 <= i < |b|
        ensures !b[i].Threw?
      {
        assert (a + b)[|a| + i] == b[i];
      }
    }
  }
}
