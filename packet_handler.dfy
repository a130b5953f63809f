// mc::handler::PacketHandler::receivePacket (packet_handler.cpp): one frame
// from the socket, its packet id, the three registry lookups, and the read of
// the packet the factory builds. Every early return only logs, so each path is
// an Outcome here; an exception that escapes receivePacket (from recvPacket or
// from reading the id) is Thrown, which receiveLoop catches and logs.
module PacketHandlers {
  import opened Wrappers
  import opened Ints
  import VarInts
  import Codec
  import Registry
  import Sockets

  datatype Outcome =
    | Thrown(error: Error)
    | EmptyPacket
    | UnknownState
    | UnknownDirection
    | UnknownId(id: int32)
    | ReadError(kind: Registry.Kind, error: Error)
    | Received(kind: Registry.Kind)

  /** packet->read(read): the virtual read of the packet a factory built, given
      the frame and the cursor it starts at. The reads themselves are the ones
      of ClientPackets and ServerPackets. */
  type PacketRead = (Registry.Kind, seq<byte>, nat) -> Result<()>

  /** receivePacket after recvPacket: drop an empty frame, read the id VarInt,
      look up (state, Clientbound, id as uint8), and read the packet from the
      cursor just past the id. */
  function Dispatch(state: Registry.State, frame: Result<seq<byte>>, read: PacketRead): Outcome
  {
    match frame
    case Err(e) => Thrown(e)
    case Ok(f) =>
      if f == [] then EmptyPacket
      else
        var id := VarInts.At(f, 0);
        match id.result
        case Err(e) => Thrown(e)
        case Ok(packetId) =>
          match Registry.Find(state, Registry.Clientbound, packetId % 256)
          case UnknownState => UnknownState
          case UnknownDirection => UnknownDirection
          case UnknownId => UnknownId(packetId)
          case Found(k) =>
            var r := read(k, f, id.next);
            if r.Err? then ReadError(k, r.error) else Received(k)
  }

  class PacketHandler {
    const socket: Sockets.Socket
    /** currentState: Handshaking, and nothing assigns it afterwards. */
    const currentState: Registry.State
    /** running: whether the receive loop is to go on. */
    var running: bool

    constructor (socket: Sockets.Socket)
      ensures this.socket == socket && currentState == Registry.Handshaking && !running
    {
      this.socket := socket;
      currentState := Registry.Handshaking;
      running := false;
    }

    /** startReceiving: a no-op when already running; the receive thread is
        not modelled. */
    method StartReceiving()
      modifies this
      ensures running
    {
      if running {
        return;
      }
      running := true;
    }

    /** stopReceiving: clear the flag; joining the thread is not modelled. */
    method StopReceiving()
      modifies this
      ensures !running
    {
      running := false;
    }

    /** receivePacket: recvPacket, then the lookup chain. */
    method ReceivePacket(read: PacketRead) returns (o: Outcome)
      requires socket.Valid()
      modifies socket, socket.cipher
      ensures socket.Valid()
      ensures var e := Sockets.PacketFrom(old(socket.pending), old(socket.compressionThreshold), socket.zlib);
              o == Dispatch(currentState, e.result, read) && socket.pending == old(socket.pending)[e.next..]
    {
      var frame := socket.RecvPacket();
      o := Dispatch(currentState, frame, read);
    }
  }

  /** The frame a packet with id `id` and body `body` arrives as. */
  function FrameOf(id: int32, body: seq<byte>): seq<byte>
  {
    VarInts.Encode(id) + body
  }

  /** A frame whose id the registry knows is read from just past the id, and the
      packet is kept or dropped as its read succeeds or fails. */
  lemma IdConsumedBeforeRead(state: Registry.State, id: int32, body: seq<byte>, read: PacketRead, k: Registry.Kind)
    requires Registry.Find(state, Registry.Clientbound, id % 256) == Registry.Found(k)
    ensures var r := read(k, FrameOf(id, body), |VarInts.Encode(id)|);
            Dispatch(state, Ok(FrameOf(id, body)), read) == if r.Err? then ReadError(k, r.error) else Received(k)
  {
    var f := FrameOf(id, body);
    Codec.HasAtStart(VarInts.Encode(id), body);
    Codec.VarIntRoundTrip(id, f, 0);
    VarInts.EncodeLength(id);
  }

  /** An id the registry does not know is reported with its full value, before
      anything else is read. */
  lemma UnknownIdReported(state: Registry.State, id: int32, body: seq<byte>, read: PacketRead)
    requires Registry.Find(state, Registry.Clientbound, id % 256) == Registry.UnknownId
    ensures Dispatch(state, Ok(FrameOf(id, body)), read) == UnknownId(id)
  {
    Codec.HasAtStart(VarInts.Encode(id), body);
    Codec.VarIntRoundTrip(id, FrameOf(id, body), 0);
    VarInts.EncodeLength(id);
  }

  /** In the Login state, every id past 5 (as uint8) is unknown. */
  lemma LoginUnknownIds(id: int32, body: seq<byte>, read: PacketRead)
    requires id % 256 > 5
    ensures Dispatch(Registry.Login, Ok(FrameOf(id, body)), read) == UnknownId(id)
  {
    Registry.LoginIds(id % 256);
    UnknownIdReported(Registry.Login, id, body, read);
  }

  /** Only the low byte of the id is looked up: 0x102 is dispatched as LoginFinished (0x02). */
  lemma IdTruncated(body: seq<byte>, read: PacketRead)
    ensures var r := read(Registry.LoginFinished, FrameOf(0x102, body), 2);
            Dispatch(Registry.Login, Ok(FrameOf(0x102, body)), read)
            == if r.Err? then ReadError(Registry.LoginFinished, r.error) else Received(Registry.LoginFinished)
  {
    assert VarInts.Encode(0x102) == [0x82, 0x02] by { VarInts.Leb128Unfold(0x102); VarInts.Leb128Unfold(2); }
    IdConsumedBeforeRead(Registry.Login, 0x102, body, read, Registry.LoginFinished);
  }

  /** An empty frame is dropped before the id is read. */
  lemma EmptyDropped(state: Registry.State, read: PacketRead)
    ensures Dispatch(state, Ok([]), read) == EmptyPacket
  {
  }

  /** A frame that ends inside its id VarInt throws out of receivePacket. */
  lemma TruncatedIdThrows(state: Registry.State, read: PacketRead)
    ensures Dispatch(state, Ok([0x80]), read) == Thrown(OutOfBounds)
  {
    assert VarInts.At([0x80], 0) == VarInts.ReadLoop([0x80], 1, 1, 0);
  }

  /** The state receivePacket uses is Handshaking, which has no entries: no
      packet is ever constructed or read, whatever the frame. */
  lemma HandshakingNeverDispatches(frame: Result<seq<byte>>, read: PacketRead, other: PacketRead)
    ensures var o := Dispatch(Registry.Handshaking, frame, read);
            o.Thrown? || o == EmptyPacket || o == UnknownState
    ensures Dispatch(Registry.Handshaking, frame, read) == Dispatch(Registry.Handshaking, frame, other)
  {
    if frame.Ok? && frame.value != [] {
      var id := VarInts.At(frame.value, 0);
      if id.result.Ok? {
        Registry.StatesWithoutEntries(Registry.Handshaking, Registry.Clientbound, id.result.value % 256);
      }
    }
  }

  /** The handler looks up clientbound packets only: in the Login state a frame
      never builds a serverbound packet. */
  lemma OnlyClientbound(frame: seq<byte>, read: PacketRead)
    ensures var o := Dispatch(Registry.Login, Ok(frame), read);
            (o.Received? || o.ReadError?) ==> o.kind in Registry.LOGIN_CLIENTBOUND
  {
    if frame != [] {
      var id := VarInts.At(frame, 0);
      if id.result.Ok? {
        Registry.LoginIds(id.result.value % 256);
      }
    }
  }
}
