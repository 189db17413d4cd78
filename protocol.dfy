/**
 The entities the chat server keeps and the events it sends. Message ids and
 timestamps come from the clock in the server; here they are plain integers
 supplied by the caller, with no promise that they increase.
 */
module Protocol {
  import opened Wrappers

  type ConnId = string     // socket.io connection id
  type Username = string   // chosen by the client, not unique
  type RoomName = string
  type MsgId = int         // `Date.now()` at creation
  type UserId = string     // client-supplied id in reactions and seen receipts
  type Emoji = string

  /** An entry of the connection registry. */
  datatype User = User(username: Username, id: ConnId, room: RoomName)

  /** An uploaded file; the base64 data is carried without interpretation. */
  datatype FileData = FileData(name: string, mime: string, data: string)

  datatype Content = Text(text: string) | File(file: FileData)

  /** The fields a client puts into a `send_message` payload that the server keeps. */
  datatype Draft = Draft(content: Content, room: Option<RoomName>, isPrivate: bool)

  /**
   A message as the server builds it. `room` is absent for private messages,
   `isPrivate` false where the source leaves the flag out; `timestamp` is the
   creation time in milliseconds.
   */
  datatype Message = Message(
    id: MsgId,
    sender: Username,
    senderId: ConnId,
    content: Content,
    room: Option<RoomName>,
    timestamp: int,
    isPrivate: bool)

  /**
   Who receives an outbound event: every connection (`io.emit`), the members
   of a socket.io room (`io.to(room)`), one connection (`socket.emit`), or the
   members of a room other than the sender (`socket.to(room)`; a connection
   id names that connection's own room).
   */
  datatype Audience = Everyone | Room(name: RoomName) | Conn(id: ConnId) | OthersIn(target: string)

  /** Outbound events, one constructor per event name. */
  datatype Outbound =
    | UserList(users: seq<User>)                                               // user_list
    | UserJoined(username: Username, id: ConnId)                               // user_joined
    | UserLeft(username: Username, id: ConnId)                                 // user_left
    | RoomList(rooms: seq<RoomName>)                                           // room_list
    | ReceiveMessage(message: Message)                                         // receive_message
    | PrivateMessage(message: Message)                                         // private_message
    | TypingUsers(names: seq<Username>)                                        // typing_users
    | ReactionUpdate(messageId: MsgId, reactions: map<Emoji, seq<UserId>>)     // reaction_update
    | MessageSeenUpdate(messageId: MsgId, seenBy: seq<UserId>)                 // message_seen_update

  datatype Event = Event(audience: Audience, body: Outbound)

  /** The reply passed to the acknowledgement callback of `room_message`. */
  datatype Ack = Ack(delivered: bool, messageId: MsgId)
}
