// mc::handler::stages::LoginHandler (login_handler.cpp), and the pieces of the
// login turn it shares with main.cpp: what the client does that can be seen
// from outside (an Event), the foreign services it calls, and the encryption
// exchange both files perform in the same order.
module LoginHandlers {
  import opened Wrappers
  import opened Ints
  import Codec
  import Cfb8
  import Sockets
  import Registry
  import PacketHandlers
  import ClientPackets
  import Uuid

  /** What the login turn does that can be observed: a packet handed to
      sendPacket (before framing), the join request to the session server, AES
      switched on with a secret, a compression threshold set, the id of a
      packet read, and an exception that reached main. */
  datatype Event =
    | Sent(packet: seq<byte>)
    | Joined(accessToken: string, profile: string, serverHash: string)
    | EncryptionEnabled(secret: seq<byte>)
    | CompressionSet(threshold: int32)
    | Got(id: int32)
    | Threw(error: Error)

  /** The calls into OpenSSL and the session server: rsaEncrypt(data, publicKey),
      computeServerHash(serverID, secret, publicKey), sendJoinServerRequest(token,
      profile, hash), and the AES block function the cipher runs on. */
  datatype Services = Services(
    rsaEncrypt: (seq<byte>, seq<byte>) -> Result<seq<byte>>,
    serverHash: (seq<byte>, seq<byte>, seq<byte>) -> string,
    join: (string, string, string) -> Result<()>,
    aes: Cfb8.BlockFn)

  /** The fields of an EncryptionRequest: server id, public key, verify token. */
  datatype Request = Request(serverId: seq<byte>, publicKey: seq<byte>, verifyToken: seq<byte>)

  /** The encryption exchange: RSA-encrypt the secret and the token with the
      server's key, hash, join the session, send the EncryptionResponse, then
      switch AES on with the plain secret. The events up to the first failure,
      and how the exchange ends. */
  function EncryptionTurn(env: Services, accessToken: string, profile: string, secret: seq<byte>, q: Request)
    : (t: (seq<Event>, Result<()>))
  {
    var es := env.rsaEncrypt(secret, q.publicKey);
    if es.Err? then ([], Err(es.error)) else
    var et := env.rsaEncrypt(q.verifyToken, q.publicKey);
    if et.Err? then ([], Err(et.error)) else
    var hash := env.serverHash(q.serverId, secret, q.publicKey);
    var joined := Joined(accessToken, profile, hash);
    var j := env.join(accessToken, profile, hash);
    if j.Err? then ([joined], Err(j.error)) else
    var sent := Sent(ClientPackets.EncryptionResponseBytes(ClientPackets.EncryptionResponse(es.value, et.value)));
    if |secret| != 16 then ([joined, sent], Err(BadKey))
    else ([joined, sent, EncryptionEnabled(secret)], Ok(()))
  }

  /** The exchange is all-or-nothing in order: AES is switched on exactly when
      it succeeds, always last, after the response, which comes after the join. */
  lemma EncryptionOrder(env: Services, accessToken: string, profile: string, secret: seq<byte>, q: Request)
    ensures var (events, r) := EncryptionTurn(env, accessToken, profile, secret, q);
            (forall i :: 0 <= i < |events| ==> (events[i].EncryptionEnabled? <==> r.Ok? && i == 2))
            && (forall i :: 0 <= i < |events| ==> (events[i].Sent? <==> i == 1))
            && (events != [] ==> events[0].Joined?)
            && (r.Ok? ==> |events| == 3 && events[2] == EncryptionEnabled(secret))
  {
  }

  /** handleEncryptionRequest and handleEncryptionResponse once the request is
      parsed. generateSharedSecret's random bytes are the parameter secret. */
  method EncryptionExchange(socket: Sockets.Socket, q: Request, accessToken: string, profile: string,
                            env: Services, secret: seq<byte>)
    returns (r: Result<()>, events: seq<Event>)
    requires socket.Valid()
    modifies socket, socket.cipher
    ensures socket.Valid() && (events, r) == EncryptionTurn(env, accessToken, profile, secret, q)
    ensures old(socket.sent) <= socket.sent && socket.compressionThreshold == old(socket.compressionThreshold)
    ensures socket.cipher == old(socket.cipher) || fresh(socket.cipher)
    ensures r.Ok? ==> socket.Decrypting() && fresh(socket.cipher) && socket.cipher.key == secret
                      && socket.cipher.encReg == secret && socket.cipher.decReg == secret
    ensures r.Err? ==> socket.cipher == old(socket.cipher) && socket.encryptionEnabled == old(socket.encryptionEnabled)
  {
    var es := env.rsaEncrypt(secret, q.publicKey);
    if es.Err? {
      return Err(es.error), [];
    }
    var et := env.rsaEncrypt(q.verifyToken, q.publicKey);
    if et.Err? {
      return Err(et.error), [];
    }
    var hash := env.serverHash(q.serverId, secret, q.publicKey);
    events := [Joined(accessToken, profile, hash)];
    var j := env.join(accessToken, profile, hash);
    if j.Err? {
      return Err(j.error), events;
    }
    var response := ClientPackets.EncryptionResponseBytes(ClientPackets.EncryptionResponse(es.value, et.value));
    socket.SendPacket(response);
    events := [events[0], Sent(response)];
    var c := Cfb8.NewCipher(env.aes, secret);
    if c.Err? {
      return Err(c.error), events;
    }
    socket.EnableEncryption(c.value);
    events := [events[0], events[1], EncryptionEnabled(secret)];
    r := Ok(());
  }

  /** The packet determinePacket is given, by its dynamic type. */
  datatype Packet =
    | EncryptionRequestPacket(request: Request)
    | LoginFinishedPacket(uuid: seq<byte>, username: seq<byte>)
    | LoginCompressionPacket(threshold: int32)
    | LoginDisconnectPacket(reason: seq<byte>)
    | OtherPacket(kind: Registry.Kind)

  /** The handler determinePacket's chain of dynamic_casts picks. */
  datatype Route = ToEncryptionResponse | ToLoginAcknowledged | ToLoginCompression | ToLoginDisconnect | Unhandled

  function RouteOf(p: Packet): Route
  {
    match p
    case EncryptionRequestPacket(_) => ToEncryptionResponse
    case LoginFinishedPacket(_, _) => ToLoginAcknowledged
    case LoginCompressionPacket(_) => ToLoginCompression
    case LoginDisconnectPacket(_) => ToLoginDisconnect
    case OtherPacket(_) => Unhandled
  }

  class LoginHandler {
    constructor ()
    {
    }

    /** determinePacket: route the packet to its handler. Only the encryption
        and compression handlers change the socket; a login success formats its
        uuid, which throws unless it is 16 bytes; a disconnect stops a handler of
        its own (see HandleLoginDisconnect), and the others only log. */
    method DeterminePacket(socket: Sockets.Socket, packet: Packet, accessToken: string, profile: string,
                           env: Services, secret: seq<byte>)
      returns (r: Result<()>, events: seq<Event>)
      requires socket.Valid()
      modifies socket, socket.cipher
      ensures socket.Valid() && old(socket.sent) <= socket.sent
      ensures packet.EncryptionRequestPacket? ==>
              (events, r) == EncryptionTurn(env, accessToken, profile, secret, packet.request)
              && socket.compressionThreshold == old(socket.compressionThreshold)
      ensures packet.LoginCompressionPacket? ==>
              r == Ok(()) && events == [CompressionSet(packet.threshold)]
              && socket.compressionThreshold == packet.threshold
      ensures packet.LoginFinishedPacket? ==>
              (r.Ok? <==> |packet.uuid| == 16) && (r.Err? ==> r.error == InvalidArgument)
      ensures packet.LoginDisconnectPacket? || packet.OtherPacket? ==> r == Ok(())
      ensures !packet.EncryptionRequestPacket? && !packet.LoginCompressionPacket? ==>
              events == [] && socket.sent == old(socket.sent)
              && socket.compressionThreshold == old(socket.compressionThreshold)
              && socket.cipher == old(socket.cipher) && socket.encryptionEnabled == old(socket.encryptionEnabled)
    {
      match RouteOf(packet)
      case ToEncryptionResponse =>
        r, events := EncryptionExchange(socket, packet.request, accessToken, profile, env, secret);
      case ToLoginAcknowledged =>
        r := HandleLoginAcknowledged(packet.uuid);
        events := [];
      case ToLoginCompression =>
        HandleLoginCompression(socket, packet.threshold);
        r, events := Ok(()), [CompressionSet(packet.threshold)];
      case ToLoginDisconnect =>
        var other := new PacketHandlers.PacketHandler(socket);
        HandleLoginDisconnect(socket, other);
        r, events := Ok(()), [];
      case Unhandled =>
        r, events := Ok(()), [];
    }

    /** handleLoginAcknowledged: formatUUIDFromBytes throws invalid_argument for
        a uuid that is not 16 bytes; otherwise the username and uuid are only logged. */
    method HandleLoginAcknowledged(uuid: seq<byte>) returns (r: Result<()>)
      ensures r.Ok? <==> |uuid| == 16
      ensures r.Err? ==> r.error == InvalidArgument
    {
      var formatted := Uuid.Format(uuid);
      if formatted.Err? {
        return Err(formatted.error);
      }
      r := Ok(());
    }

    /** handleLoginCompression: the socket's threshold becomes the packet's. */
    method HandleLoginCompression(socket: Sockets.Socket, threshold: int32)
      requires socket.Valid()
      modifies socket
      ensures socket.Valid() && socket.compressionThreshold == threshold
      ensures socket.sent == old(socket.sent) && socket.cipher == old(socket.cipher)
      ensures socket.encryptionEnabled == old(socket.encryptionEnabled) && socket.pending == old(socket.pending)
    {
      socket.SetCompressionThreshold(threshold);
    }

    /** handleLoginDisconnect as written: it stops a PacketHandler it has just
        made, which is not receiving, so the handler that is receiving goes on. */
    method HandleLoginDisconnect(socket: Sockets.Socket, receiving: PacketHandlers.PacketHandler)
      ensures receiving.running == old(receiving.running)
    {
      var handler := new PacketHandlers.PacketHandler(socket);
      handler.StopReceiving();
    }

    /** The evidently intended handleLoginDisconnect: stop the handler that receives. */
    method StopOnDisconnect(receiving: PacketHandlers.PacketHandler)
      modifies receiving
      ensures !receiving.running
    {
      receiving.StopReceiving();
    }
  }

  /** A disconnect during receiving, handled as written, leaves the receive loop
      running; handled as intended, it stops it. */
  method DisconnectWhileReceiving(socket: Sockets.Socket) returns (asWritten: bool, intended: bool)
    ensures asWritten && !intended
  {
    var receiving := new PacketHandlers.PacketHandler(socket);
    receiving.StartReceiving();
    var h := new LoginHandler();
    h.HandleLoginDisconnect(socket, receiving);
    asWritten := receiving.running;
    h.StopOnDisconnect(receiving);
    intended := receiving.running;
  }
}
