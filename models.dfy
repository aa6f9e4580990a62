/**
 * The wire-level records shared by the chat server's components:
 * the message kinds with their string values, chat messages, rooms and users.
 * Pydantic defaults become datatype parameters with default values; a default
 * produced by a factory (the current UTC time) cannot be a constant and is an
 * explicit parameter.
 */
module Models {
  import opened Wrappers

  /** An absolute instant, as assigned by the server clock (opaque here). */
  type Timestamp = nat

  /** The five kinds of message that travel over the socket. */
  datatype MessageType = Chat | Join | Leave | Typing | System

  /** The string value each kind has on the wire. */
  function WireName(t: MessageType): (name: string)
    ensures name in {"chat", "join", "leave", "typing", "system"}
  {
    match t
    case Chat => "chat"
    case Join => "join"
    case Leave => "leave"
    case Typing => "typing"
    case System => "system"
  }

  /** The kind a wire string denotes, if any: the enum's validation of an incoming value. */
  function ParseMessageType(s: string): (r: Option<MessageType>)
    ensures r.Some? ==> WireName(r.value) == s
    ensures r.None? ==> forall t :: WireName(t) != s
  {
    if s == "chat" then Some(Chat)
    else if s == "join" then Some(Join)
    else if s == "leave" then Some(Leave)
    else if s == "typing" then Some(Typing)
    else if s == "system" then Some(System)
    else None
  }

  /** Every kind survives the trip to its wire string and back. */
  lemma WireNameRoundTrip(t: MessageType)
    ensures ParseMessageType(WireName(t)) == Some(t)
  {
  }

  /** Distinct kinds have distinct wire strings. */
  lemma WireNameInjective(t: MessageType, u: MessageType)
    ensures WireName(t) == WireName(u) ==> t == u
  {
  }

  /**
   * A chat message. The four string fields have no default; the kind
   * defaults to `Chat`; the timestamp is the creation instant.
   */
  datatype Message = Message(
    userId: string,
    username: string,
    roomId: string,
    content: string,
    messageType: MessageType := Chat,
    nameonly timestamp: Timestamp)

  /** A chat room; `memberCount` is filled in from the live registry and defaults to 0. */
  datatype Room = Room(
    id: string,
    name: string,
    nameonly createdAt: Timestamp,
    memberCount: int := 0)

  /** A connected user; the room is unset until the user joins one. */
  datatype User = User(
    id: string,
    username: string,
    currentRoom: Option<string> := None)

  /** Body of a join request (declared by the wire model; no endpoint in this model reads it). */
  datatype JoinRoomRequest = JoinRoomRequest(username: string, roomId: string)

  /** Body of a room-creation request. */
  datatype CreateRoomRequest = CreateRoomRequest(name: string)

  /** The defaults of the three records, as a caller that omits the optional fields sees them. */
  lemma RecordDefaults(userId: string, username: string, roomId: string, content: string, name: string, at: Timestamp)
    ensures Message(userId, username, roomId, content, timestamp := at).messageType == Chat
    ensures Room(roomId, name, createdAt := at).memberCount == 0
    ensures User(userId, username).currentRoom == None
  {
  }
}
