/**
 The chat server's coordination state and its socket handlers. Node runs one
 handler at a time to completion, so each handler is one method, one atomic
 step. Instead of calling socket.io, a handler returns the events it emits,
 in emission order, each with its audience.
 */
module Server {
  import opened Wrappers
  import opened Lists
  import opened OrderedMaps
  import opened Protocol
  import opened MessageStore
  import opened Reactions
  import opened SeenTracker
  import opened Rooms
  import opened SocketRooms

  /** The sender name used when the connection has no registered, non-empty name. */
  const Anonymous: Username := "Anonymous"

  /**
   Where a `message_seen_update` goes: to the room named in the request when
   that name is a non-empty string, otherwise back to the caller only.
   */
  function SeenAudience(conn: ConnId, room: Option<RoomName>): (a: Audience)
    ensures a.Room? <==> room.Some? && room.value != ""
    ensures a.Room? ==> a.name == room.value
    ensures !a.Room? ==> a == Conn(conn)
  {
    if room.Some? && room.value != "" then Room(room.value) else Conn(conn)
  }

  /** The start-up values of the server's tables each satisfy their part of the invariant. */
  lemma InitialStateValid()
    ensures var registry: OrderedMap<ConnId, User> := OrderedMap([], map[]); registry.Valid()
    ensures var typing: OrderedMap<ConnId, Username> := OrderedMap([], map[]); typing.Valid()
    ensures LastN<Message>([], MaxMessages) == []
    ensures Distinct([General])
    ensures Reactions.WellFormed(map[]) && SeenTracker.WellFormed(map[])
    ensures Agrees(map[], map[])
  {
  }

  /**
   The store holds exactly the newest messages ever sent, at most `MaxMessages`;
   room names are unique and the default room comes first; no reaction or seen
   list names a user twice.
   */
  ghost predicate ContentOk(messages: seq<Message>, history: seq<Message>, rooms: seq<RoomName>,
                            reactions: ReactionTable, seen: SeenTable) {
    && messages == LastN(history, MaxMessages)
    && Distinct(rooms) && |rooms| > 0 && rooms[0] == General
    && Reactions.WellFormed(reactions)
    && SeenTracker.WellFormed(seen)
  }

  /** Users are filed under their own connection id; only registered connections type. */
  ghost predicate RegistryOk(users: OrderedMap<ConnId, User>, typing: OrderedMap<ConnId, Username>) {
    && users.Valid()
    && (forall id :: id in users.entries ==> users.entries[id].id == id)
    && typing.Valid()
    && (forall id :: id in typing.entries ==> id in users.entries)
  }

  /** Filing a user under its own id keeps the registry well formed. */
  lemma FilingKeepsRegistry(users: OrderedMap<ConnId, User>, typing: OrderedMap<ConnId, Username>, u: User)
    requires RegistryOk(users, typing)
    ensures RegistryOk(users.Put(u.id, u), typing)
  {
  }

  /** Dropping a connection from both tables keeps the registry well formed. */
  lemma DroppingKeepsRegistry(users: OrderedMap<ConnId, User>, typing: OrderedMap<ConnId, Username>, c: ConnId)
    requires RegistryOk(users, typing)
    ensures RegistryOk(users.Remove(c), typing.Remove(c))
  {
  }

  /** Recording or clearing a registered connection's typing entry keeps the registry well formed. */
  lemma TypingKeepsRegistry(users: OrderedMap<ConnId, User>, typing: OrderedMap<ConnId, Username>,
                            c: ConnId, name: Username, isTyping: bool)
    requires RegistryOk(users, typing) && c in users.entries
    ensures RegistryOk(users, if isTyping then typing.Put(c, name) else typing.Remove(c))
  {
  }

  /** The connections a registry files under `room`. */
  ghost function MembersOf(entries: map<ConnId, User>, room: RoomName): set<ConnId> {
    set id | id in entries && entries[id].room == room
  }

  /** Filing `c` under `u.room` adds it to that room's members and takes it out of every other room's. */
  lemma MembersAfterFiling(entries: map<ConnId, User>, c: ConnId, u: User, room: RoomName)
    ensures MembersOf(entries[c := u], room) ==
      if room == u.room then MembersOf(entries, room) + {c} else MembersOf(entries, room) - {c}
  {
  }

  /** Dropping `c` from the registry takes it out of every room's members. */
  lemma MembersAfterDropping(entries: map<ConnId, User>, c: ConnId, room: RoomName)
    ensures MembersOf(entries - {c}, room) == MembersOf(entries, room) - {c}
  {
  }

  class ChatServer {
    /** Connection registry: connection id → user, in connection order. */
    var users: OrderedMap<ConnId, User>
    /** The stored history, oldest first. */
    var messages: seq<Message>
    /** Connection id → name of a user who is typing. */
    var typingUsers: OrderedMap<ConnId, Username>
    /** Room directory, in creation order. */
    var rooms: seq<RoomName>
    var messageReactions: ReactionTable
    var messageSeen: SeenTable
    /** Every message `send_message` has stored since start-up, oldest first. */
    ghost var history: seq<Message>
    /** The socket.io rooms each connection has joined. */
    ghost var joined: Joined

    /** Users are filed under their own connection id; only registered connections type. */
    ghost predicate RegistryValid()
      reads this`users, this`typingUsers
    {
      RegistryOk(users, typingUsers)
    }

    /** A registered connection has joined exactly its registry room; any other connection none. */
    ghost predicate SocketsValid()
      reads this`users, this`joined
    {
      Agrees(joined, users.entries)
    }

    /**
     The registry is well formed and in step with socket.io's rooms; the
     store, the room directory and the reaction and seen tables are well formed.
     */
    ghost predicate Valid()
      reads this
    {
      && RegistryValid()
      && SocketsValid()
      && ContentOk(messages, history, rooms, messageReactions, messageSeen)
    }

    /** The registered connections whose current room is `room`. */
    ghost function Members(room: RoomName): set<ConnId>
      reads this`users
    {
      MembersOf(users.entries, room)
    }

    /**
     The registry's view of a room is socket.io's: `io.to(room)` reaches
     exactly the registered connections whose current room it is.
     */
    lemma MembersReceiveRoomEvents(room: RoomName)
      requires Valid()
      ensures forall c :: c in Members(room) <==> room in JoinedRooms(joined, c)
    {
      forall c ensures c in Members(room) <==> room in JoinedRooms(joined, c) {
        assert JoinedRooms(joined, c) == if c in users.entries then {users.entries[c].room} else {};
      }
    }

    /** `users[socket.id]?.username || 'Anonymous'`. */
    function SenderName(conn: ConnId): (name: Username)
      reads this`users
      ensures conn in users.entries && users.entries[conn].username != "" ==> name == users.entries[conn].username
      ensures conn !in users.entries || users.entries[conn].username == "" ==> name == Anonymous
    {
      if conn in users.entries && users.entries[conn].username != "" then users.entries[conn].username else Anonymous
    }

    /** Start-up: no users, no messages, nobody typing, only the default room. */
    constructor ()
      ensures Valid()
      ensures users.keys == [] && typingUsers.keys == [] && messages == [] && history == [] && joined == map[]
      ensures rooms == [General] && messageReactions == map[] && messageSeen == map[]
    {
      users := OrderedMap([], map[]);
      messages := [];
      typingUsers := OrderedMap([], map[]);
      rooms := [General];
      messageReactions := map[];
      messageSeen := map[];
      history := [];
      joined := map[];
      new;
      StartUpValid();
    }

    /** The start-up tables satisfy the invariant. */
    lemma StartUpValid()
      requires users == OrderedMap([], map[]) && typingUsers == OrderedMap([], map[])
      requires messages == [] && history == [] && rooms == [General]
      requires messageReactions == map[] && messageSeen == map[] && joined == map[]
      ensures Valid()
    {
      InitialStateValid();
    }

    /** `user_join`: register (or re-register) the connection in the default room. */
    method OnUserJoin(conn: ConnId, username: Username) returns (events: seq<Event>)
      requires Valid()
      modifies this`users, this`joined
      ensures Valid()
      ensures users == old(users).Put(conn, User(username, conn, General))
      ensures joined == UserJoin(old(joined), conn,
        if conn in old(users.entries) then Some(old(users.entries[conn].room)) else None)
      ensures JoinedRooms(joined, conn) == {General}
      ensures conn in Members(General)
      ensures forall r :: r != General ==> Members(r) == old(Members(r)) - {conn}
      ensures events == [
        Event(Everyone, UserList(users.Values())),
        Event(Everyone, UserJoined(username, conn)),
        Event(Everyone, RoomList(rooms))]
    {
      var user := User(username, conn, General);
      ghost var filed := users.entries;
      UserJoinKeepsAgreement(joined, filed, conn, user);
      FilingKeepsRegistry(users, typingUsers, user);
      joined := UserJoin(joined, conn, if conn in filed then Some(filed[conn].room) else None);
      users := users.Put(conn, user);
      assert users.entries == filed[conn := user];
      forall r ensures Members(r) == if r == General then old(Members(r)) + {conn} else old(Members(r)) - {conn} {
        MembersAfterFiling(filed, conn, user, r);
      }
      events := [
        Event(Everyone, UserList(users.Values())),
        Event(Everyone, UserJoined(username, conn)),
        Event(Everyone, RoomList(rooms))];
    }

    /**
     `send_message`: store the message, evicting the oldest once the store is
     full, and send it to everyone. The sender need not be registered.
     */
    method OnSendMessage(conn: ConnId, draft: Draft, id: MsgId, timestamp: int) returns (events: seq<Event>)
      requires Valid()
      modifies this`messages, this`history
      ensures Valid()
      ensures var msg := Message(id, old(SenderName(conn)), conn, draft.content, draft.room, timestamp, draft.isPrivate);
        && history == old(history) + [msg]
        && |messages| <= MaxMessages
        && messages[|messages| - 1] == msg
        && (|old(messages)| < MaxMessages ==> messages == old(messages) + [msg])
        && (|old(messages)| == MaxMessages ==> messages == old(messages)[1..] + [msg])
        && events == [Event(Everyone, ReceiveMessage(msg))]
    {
      var msg := Message(id, SenderName(conn), conn, draft.content, draft.room, timestamp, draft.isPrivate);
      LastNSnoc(history, msg, MaxMessages);
      history := history + [msg];
      messages := messages + [msg];
      if |messages| > MaxMessages {
        messages := messages[1..];
      }
      events := [Event(Everyone, ReceiveMessage(msg))];
    }

    /**
     `typing`: for a registered connection, record or clear its typing entry
     and broadcast the names of everyone typing; otherwise do nothing.
     */
    method OnTyping(conn: ConnId, isTyping: bool) returns (events: seq<Event>)
      requires Valid()
      modifies this`typingUsers
      ensures Valid()
      ensures conn !in users.entries ==> typingUsers == old(typingUsers) && events == []
      ensures conn in users.entries ==>
        && typingUsers == (if isTyping then old(typingUsers).Put(conn, users.entries[conn].username)
                           else old(typingUsers).Remove(conn))
        && (isTyping <==> conn in typingUsers.entries)
        && events == [Event(Everyone, TypingUsers(typingUsers.Values()))]
    {
      events := [];
      if conn in users.entries {
        var username := users.entries[conn].username;
        TypingKeepsRegistry(users, typingUsers, conn, username, isTyping);
        if isTyping {
          typingUsers := typingUsers.Put(conn, username);
        } else {
          typingUsers := typingUsers.Remove(conn);
        }
        events := [Event(Everyone, TypingUsers(typingUsers.Values()))];
      }
    }

    /**
     `private_message`: the same private message goes to the recipient and
     back to the sender; nothing is stored.
     */
    method OnPrivateMessage(conn: ConnId, to: ConnId, text: string, id: MsgId, timestamp: int)
      returns (events: seq<Event>)
      ensures |events| == 2
      ensures events[0].audience == OthersIn(to) && events[1].audience == Conn(conn)
      ensures events[0].body == events[1].body && events[0].body.PrivateMessage?
      ensures var msg := events[0].body.message;
        && msg.id == id && msg.sender == SenderName(conn) && msg.senderId == conn
        && msg.content == Text(text) && msg.room == None && msg.timestamp == timestamp && msg.isPrivate
    {
      var msg := Message(id, SenderName(conn), conn, Text(text), None, timestamp, true);
      events := [Event(OthersIn(to), PrivateMessage(msg)), Event(Conn(conn), PrivateMessage(msg))];
    }

    /**
     `room_message`: from a registered connection, send the message to its
     current room and acknowledge it when a callback was passed; from an
     unregistered one, nothing. The message is not stored.
     */
    method OnRoomMessage(conn: ConnId, text: string, hasCallback: bool, id: MsgId, timestamp: int)
      returns (events: seq<Event>, ack: Option<Ack>)
      ensures conn !in users.entries ==> events == [] && ack == None
      ensures conn in users.entries ==>
        var user := users.entries[conn];
        && events == [Event(Room(user.room),
                            ReceiveMessage(Message(id, user.username, conn, Text(text), Some(user.room), timestamp, false)))]
        && ack == (if hasCallback then Some(Ack(true, id)) else None)
    {
      events, ack := [], None;
      if conn in users.entries {
        var user := users.entries[conn];
        var msg := Message(id, user.username, conn, Text(text), Some(user.room), timestamp, false);
        events := [Event(Room(user.room), ReceiveMessage(msg))];
        if hasCallback {
          ack := Some(Ack(true, msg.id));
        }
      }
    }

    /**
     `create_room`: add a new name after the existing ones and broadcast the
     list; an existing name, the default room included, changes nothing.
     Existence is tested on the directory's own names only.
     */
    method OnCreateRoom(roomName: RoomName) returns (events: seq<Event>)
      requires Valid()
      modifies this`rooms
      ensures Valid()
      ensures roomName in rooms && General in rooms
      ensures roomName in old(rooms) ==> rooms == old(rooms) && events == []
      ensures roomName !in old(rooms) ==>
        rooms == old(rooms) + [roomName] && events == [Event(Everyone, RoomList(rooms))]
    {
      events := [];
      if roomName !in rooms {
        rooms := rooms + [roomName];
        events := [Event(Everyone, RoomList(rooms))];
      }
    }

    /**
     `join_room`: move a registered connection to `roomName` (which need not
     be in the directory) and broadcast the user list; only that user's room
     changes. An unregistered connection changes nothing.
     */
    method OnJoinRoom(conn: ConnId, roomName: RoomName) returns (events: seq<Event>)
      requires Valid()
      modifies this`users, this`joined
      ensures Valid()
      ensures conn !in old(users.entries) ==> users == old(users) && joined == old(joined) && events == []
      ensures conn in old(users.entries) ==>
        && users == old(users).Put(conn, old(users.entries[conn]).(room := roomName))
        && joined == JoinRoom(old(joined), conn, old(users.entries[conn].room), roomName)
        && users.keys == old(users.keys)
        && (forall r :: Members(r) == if r == roomName then old(Members(r)) + {conn} else old(Members(r)) - {conn})
        && events == [Event(Everyone, UserList(users.Values()))]
    {
      events := [];
      if conn in users.entries {
        var user := users.entries[conn].(room := roomName);
        ghost var filed := users.entries;
        JoinRoomKeepsAgreement(joined, filed, conn, roomName);
        FilingKeepsRegistry(users, typingUsers, user);
        joined := JoinRoom(joined, conn, filed[conn].room, roomName);
        users := users.Put(conn, user);
        assert users.entries == filed[conn := user];
        forall r ensures Members(r) == if r == roomName then old(Members(r)) + {conn} else old(Members(r)) - {conn} {
          MembersAfterFiling(filed, conn, user, r);
        }
        events := [Event(Everyone, UserList(users.Values()))];
      }
    }

    /**
     `disconnect`: announce the departure of a registered user, drop the
     connection from the registry and the typing set, and broadcast both.
     History, rooms, reactions and seen receipts stay.
     */
    method OnDisconnect(conn: ConnId) returns (events: seq<Event>)
      requires Valid()
      modifies this`users, this`typingUsers, this`joined
      ensures Valid()
      ensures users == old(users).Remove(conn) && typingUsers == old(typingUsers).Remove(conn)
      ensures joined == LeaveAll(old(joined), conn)
      ensures conn !in users.entries && conn !in typingUsers.entries
      ensures forall i :: 0 <= i < |users.Values()| ==> users.Values()[i].id != conn
      ensures forall r :: Members(r) == old(Members(r)) - {conn}
      ensures events ==
        (if conn in old(users.entries) then [Event(Everyone, UserLeft(old(users.entries[conn].username), conn))] else [])
        + [Event(Everyone, UserList(users.Values())), Event(Everyone, TypingUsers(typingUsers.Values()))]
    {
      events := [];
      if conn in users.entries {
        events := [Event(Everyone, UserLeft(users.entries[conn].username, conn))];
      }
      ghost var filed := users.entries;
      LeaveAllKeepsAgreement(joined, filed, conn);
      DroppingKeepsRegistry(users, typingUsers, conn);
      users := users.Remove(conn);
      assert users.entries == filed - {conn};
      forall r ensures Members(r) == old(Members(r)) - {conn} {
        MembersAfterDropping(filed, conn, r);
      }
      typingUsers := typingUsers.Remove(conn);
      joined := LeaveAll(joined, conn);
      events := events + [Event(Everyone, UserList(users.Values())), Event(Everyone, TypingUsers(typingUsers.Values()))];
    }

    /**
     `add_reaction`: record the reaction unless the user already gave that
     emoji on that message, and broadcast the message's whole reaction map.
     */
    method OnAddReaction(messageId: MsgId, emoji: Emoji, userId: UserId) returns (events: seq<Event>)
      requires Valid()
      modifies this`messageReactions
      ensures Valid()
      ensures messageReactions == WithReaction(old(messageReactions), messageId, emoji, userId)
      ensures Count(Reactors(messageReactions, messageId, emoji), userId) == 1
      ensures userId in Reactors(old(messageReactions), messageId, emoji) ==> messageReactions == old(messageReactions)
      ensures events == [Event(Everyone, ReactionUpdate(messageId, messageReactions[messageId]))]
    {
      var table := messageReactions;
      ReactionRecordedOnce(table, messageId, emoji, userId);
      AddReactionSteps(table, messageId, emoji, userId);
      if messageId !in table {
        table := table[messageId := map[]];
      }
      var forMessage := table[messageId];
      if emoji !in forMessage {
        forMessage := forMessage[emoji := []];
      }
      if userId !in forMessage[emoji] {
        table := table[messageId := forMessage[emoji := forMessage[emoji] + [userId]]];
      }
      messageReactions := table;
      events := [Event(Everyone, ReactionUpdate(messageId, messageReactions[messageId]))];
    }

    /**
     `room_file`: from a registered connection, send the file to its current
     room; from an unregistered one, nothing. The message is not stored.
     */
    method OnRoomFile(conn: ConnId, file: FileData, id: MsgId, timestamp: int) returns (events: seq<Event>)
      ensures conn !in users.entries ==> events == []
      ensures conn in users.entries ==>
        var user := users.entries[conn];
        events == [Event(Room(user.room),
                         ReceiveMessage(Message(id, user.username, conn, File(file), Some(user.room), timestamp, false)))]
    {
      events := [];
      if conn in users.entries {
        var user := users.entries[conn];
        var msg := Message(id, user.username, conn, File(file), Some(user.room), timestamp, false);
        events := [Event(Room(user.room), ReceiveMessage(msg))];
      }
    }

    /** `private_file`: like `private_message`, carrying a file. */
    method OnPrivateFile(conn: ConnId, to: ConnId, file: FileData, id: MsgId, timestamp: int)
      returns (events: seq<Event>)
      ensures |events| == 2
      ensures events[0].audience == OthersIn(to) && events[1].audience == Conn(conn)
      ensures events[0].body == events[1].body && events[0].body.PrivateMessage?
      ensures var msg := events[0].body.message;
        && msg.id == id && msg.sender == SenderName(conn) && msg.senderId == conn
        && msg.content == File(file) && msg.room == None && msg.timestamp == timestamp && msg.isPrivate
    {
      var msg := Message(id, SenderName(conn), conn, File(file), None, timestamp, true);
      events := [Event(OthersIn(to), PrivateMessage(msg)), Event(Conn(conn), PrivateMessage(msg))];
    }

    /**
     `message_seen`: the first acknowledgement of a message by a user is
     recorded and announced once; a repeated one changes nothing and is silent.
     */
    method OnMessageSeen(conn: ConnId, messageId: MsgId, userId: UserId, room: Option<RoomName>)
      returns (events: seq<Event>)
      requires Valid()
      modifies this`messageSeen
      ensures Valid()
      ensures messageSeen == WithSeen(old(messageSeen), messageId, userId)
      ensures Count(SeenBy(messageSeen, messageId), userId) == 1
      ensures userId in SeenBy(old(messageSeen), messageId) ==> events == []
      ensures userId !in SeenBy(old(messageSeen), messageId) ==>
        events == [Event(SeenAudience(conn, room), MessageSeenUpdate(messageId, SeenBy(messageSeen, messageId)))]
    {
      var table := messageSeen;
      SeenTwice(table, messageId, userId);
      MarkSeenSteps(table, messageId, userId);
      events := [];
      if messageId !in table {
        table := table[messageId := []];
      }
      if userId !in table[messageId] {
        table := table[messageId := table[messageId] + [userId]];
        var audience := SeenAudience(conn, room);
        events := [Event(audience, MessageSeenUpdate(messageId, table[messageId]))];
      }
      messageSeen := table;
    }
  }

  /**
   A user joins and sends to the room they are in: the message reaches the
   default room and the sender is acknowledged.
   */
  method RoomMessageScenario() {
    var s := new ChatServer();
    var joined := s.OnUserJoin("a", "Alice");
    assert s.users.entries["a"] == User("Alice", "a", General);
    var sent, ack := s.OnRoomMessage("a", "hi", true, 1000, 1000);
    assert sent == [Event(Room(General), ReceiveMessage(Message(1000, "Alice", "a", Text("hi"), Some(General), 1000, false)))];
    assert ack == Some(Ack(true, 1000));
  }

  /** A reader acknowledges a room message twice: only the first receipt is announced, to that room. */
  method SeenScenario() {
    var s := new ChatServer();
    assert SeenBy(s.messageSeen, 1000) == [];
    assert AddOnce([], "b") == ["b"];
    assert SeenAudience("b", Some(General)) == Room(General);
    var seen := s.OnMessageSeen("b", 1000, "b", Some(General));
    assert SeenBy(s.messageSeen, 1000) == ["b"];
    assert seen == [Event(Room(General), MessageSeenUpdate(1000, ["b"]))];
    assert "b" in SeenBy(s.messageSeen, 1000);
    var again := s.OnMessageSeen("b", 1000, "b", Some(General));
    assert again == [];
  }

  /** When one of two users disconnects, only that user leaves the default room. */
  method DisconnectScenario() {
    var s := new ChatServer();
    var e1 := s.OnUserJoin("a", "Alice");
    var e2 := s.OnUserJoin("b", "Bob");
    var left := s.OnDisconnect("a");
    assert "a" !in s.Members(General) && "b" in s.Members(General);
  }
}
