// mc::protocol::packetFactoryRegistry (packet_registry.hpp): the constant table
// from protocol state to direction to packet id to the factory of a fresh
// packet object. A factory is named here by the kind of packet it constructs.
module Registry {
  import opened Wrappers
  import opened Ints

  /** PacketState: the five connection states of the protocol. */
  datatype State = Handshaking | Status | Login | Configuration | Play

  /** PacketDirection. */
  datatype Direction = Serverbound | Clientbound

  /** The classes the factories of the table construct. CookieRequest is the
      login-state class of server/login/cookie_request.hpp. */
  datatype Kind =
    | LoginStart | EncryptionResponse | CustomQueryAnswer | LoginAcknowledged | CookieResponse
    | LoginDisconnect | EncryptionRequest | LoginFinished | LoginCompression | CustomQuery | CookieRequest
    | StatusRequest | PingRequest | StatusResponse | PongResponse

  /** The table itself. The status-state packets are filed under Configuration. */
  const Table: map<State, map<Direction, map<byte, Kind>>> := map[
    Login := map[
      Serverbound := map[0 := LoginStart, 1 := EncryptionResponse, 2 := CustomQueryAnswer,
                         3 := LoginAcknowledged, 4 := CookieResponse],
      Clientbound := map[0 := LoginDisconnect, 1 := EncryptionRequest, 2 := LoginFinished,
                         3 := LoginCompression, 4 := CustomQuery, 5 := CookieRequest]],
    Configuration := map[
      Serverbound := map[0 := StatusRequest, 1 := PingRequest],
      Clientbound := map[0 := StatusResponse, 1 := PongResponse]]]

  /** The three ways a lookup by find() fails, and the factory it finds. */
  datatype Lookup = Found(kind: Kind) | UnknownState | UnknownDirection | UnknownId

  /** The three nested find() calls of receivePacket, in order. */
  function Find(state: State, direction: Direction, id: byte): Lookup
  {
    if state !in Table then UnknownState
    else if direction !in Table[state] then UnknownDirection
    else if id !in Table[state][direction] then UnknownId
    else Found(Table[state][direction][id])
  }

  /** The ids each packet class reports through getPacketID(). The class behind
      the login CookieRequest factory is not part of this model, so its id is
      unknown. */
  function PacketId(k: Kind): Option<nat>
  {
    match k
    case LoginStart => Some(0)
    case EncryptionResponse => Some(1)
    case CustomQueryAnswer => Some(2)
    case LoginAcknowledged => Some(3)
    case CookieResponse => Some(4)
    case LoginDisconnect => Some(0)
    case EncryptionRequest => Some(1)
    case LoginFinished => Some(2)
    case LoginCompression => Some(3)
    case CustomQuery => Some(4)
    case CookieRequest => None
    case StatusRequest => Some(0)
    case PingRequest => Some(1)
    case StatusResponse => Some(0)
    case PongResponse => Some(1)
  }

  /** The direction each packet class reports through getDirection(). */
  function PacketDirection(k: Kind): Option<Direction>
  {
    match k
    case LoginStart | EncryptionResponse | CustomQueryAnswer | LoginAcknowledged | CookieResponse => Some(Serverbound)
    case LoginDisconnect | EncryptionRequest | LoginFinished | LoginCompression => Some(Clientbound)
    case CustomQuery => Some(Serverbound)
    case CookieRequest => None
    case StatusRequest | PingRequest => Some(Serverbound)
    case StatusResponse | PongResponse => Some(Clientbound)
  }

  /** The login packets the client sends, by id. */
  const LOGIN_SERVERBOUND: seq<Kind> := [LoginStart, EncryptionResponse, CustomQueryAnswer, LoginAcknowledged, CookieResponse]

  /** The login packets the server sends, by id. */
  const LOGIN_CLIENTBOUND: seq<Kind> :=
    [LoginDisconnect, EncryptionRequest, LoginFinished, LoginCompression, CustomQuery, CookieRequest]

  /** Login serverbound holds exactly the ids 0 to 4, and login clientbound exactly 0 to 5. */
  lemma LoginIds(id: byte)
    ensures Find(Login, Serverbound, id) == if id < |LOGIN_SERVERBOUND| then Found(LOGIN_SERVERBOUND[id]) else UnknownId
    ensures Find(Login, Clientbound, id) == if id < |LOGIN_CLIENTBOUND| then Found(LOGIN_CLIENTBOUND[id]) else UnknownId
  {
  }

  /** Configuration holds the ids 0 and 1 in each direction, bound to the status packets. */
  lemma ConfigurationIds(id: byte)
    ensures Find(Configuration, Serverbound, id) ==
            if id == 0 then Found(StatusRequest) else if id == 1 then Found(PingRequest) else UnknownId
    ensures Find(Configuration, Clientbound, id) ==
            if id == 0 then Found(StatusResponse) else if id == 1 then Found(PongResponse) else UnknownId
  {
  }

  /** Handshaking, Status and Play have no entries, so every lookup in them fails on the state. */
  lemma StatesWithoutEntries(state: State, direction: Direction, id: byte)
    ensures Find(state, direction, id) == UnknownState <==> state in {Handshaking, Status, Play}
  {
  }

  /** Both states in the table file both directions, so the unknown-direction
      failure cannot occur. */
  lemma NoUnknownDirection(state: State, direction: Direction, id: byte)
    ensures Find(state, direction, id) != UnknownDirection
  {
  }

  /** Every factory with a known class builds a packet whose getPacketID() is its key. */
  lemma FactoriesMatchIds(state: State, direction: Direction, id: byte)
    requires Find(state, direction, id).Found? && Find(state, direction, id).kind != CookieRequest
    ensures PacketId(Find(state, direction, id).kind) == Some(id as nat)
  {
  }

  /** Every factory with a known class builds a packet whose getDirection() is
      the direction it is filed under, except CustomQuery. */
  lemma FactoriesMatchDirections(state: State, direction: Direction, id: byte)
    requires Find(state, direction, id).Found?
    requires Find(state, direction, id).kind !in {CookieRequest, CustomQuery}
    ensures PacketDirection(Find(state, direction, id).kind) == Some(direction)
  {
  }

  /** CustomQuery is filed as clientbound, but reports itself as serverbound. */
  lemma CustomQueryDirection()
    ensures Find(Login, Clientbound, 4) == Found(CustomQuery)
    ensures PacketDirection(CustomQuery) == Some(Serverbound)
  {
  }
}
