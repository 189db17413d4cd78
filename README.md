# Chat server coordination state

A Dafny model of the real-time chat server in `server/server.js`. The
server is a Node process that keeps all of its state in memory:

- the connection registry (connection id → user with a current room)
- the bounded message history (the newest 100 messages)
- the set of users who are typing
- the room directory, which starts with `general`
- per-message emoji reactions
- per-message "seen" receipts

It reacts to socket events one at a time. It also answers
`GET /api/messages` with a page of the stored history.

The model is one class, `Server.ChatServer`. It has one method per socket
handler and one field per piece of state. Each method says in its
`modifies` clause which fields the handler changes. The fields are:

- `users` and `typingUsers` are insertion-ordered dictionaries (`OrderedMaps.OrderedMap`). They enumerate like the source's plain objects.
- `messages` is a sequence.
- `rooms` is a sequence of names in creation order.
- the reaction and seen tables are nested maps.

A ghost `history` records every message ever stored. The class invariant ties
the store to it: `messages == LastN(history, 100)`. A ghost `joined` records
the socket.io rooms each connection has joined (`socket.join`/`socket.leave`).
The invariant keeps it in step with the registry: a registered connection has
joined exactly its registry room. For that, `user_join` first leaves the room
the registry names (see Findings). Events are not
sent. Each handler returns them in emission order, each with its audience:

- `Everyone` stands for `io.emit`.
- `Room(r)` stands for `io.to(r)`.
- `Conn(c)` stands for the caller's own socket.
- `OthersIn(to)` stands for `socket.to(to)`.

Message ids and timestamps come from the clock in the source. Here they are
parameters of the handlers.

Modules:

| module | file | contents |
|---|---|---|
| `Wrappers` | wrappers.dfy | `Option` |
| `Lists` | lists.dfy | duplicate-free lists, `includes`-then-`push`, last-n slices |
| `OrderedMaps` | ordered_maps.dfy | a JavaScript object as an insertion-ordered dictionary |
| `Protocol` | protocol.dfy | users, messages, files, audiences, outbound events, acknowledgements |
| `MessageStore` | message_store.dfy | the history bound and the `/api/messages` query |
| `Reactions` | reactions.dfy | the reaction table |
| `SeenTracker` | seen_tracker.dfy | the seen-receipt table |
| `Rooms` | rooms.dfy | the default room and the `create_room` finding |
| `SocketRooms` | socket_rooms.dfy | the socket.io rooms each connection has joined, and the `user_join` finding |
| `Server` | server.dfy | `ChatServer` and its handlers |

The model follows the code in these points, which a reader might expect to
be otherwise:

- Message ids are `Date.now()` values. They need not be increasing or unique, so the model assumes neither.
- Timestamps have millisecond resolution, so two messages stored in the same millisecond share one. `MessageStore.NextPageContinues` covers strictly increasing timestamps. `MessageStore.NextPageSkipsTies` covers the non-decreasing case: paging with the strict `<` cursor skips every unreturned match that shares the oldest returned timestamp. `MessageStore.TiedTimestampsLoseAMessage` gives an instance.
- `send_message`, `add_reaction` and the typing snapshot go to everyone, not to a room's members.
- `room_message` and `room_file` deliver to the room but do not store anything. Only `send_message` stores.
- A seen receipt without a (non-empty) room goes only to the acknowledging connection.
- `join_room` accepts any room name, whether or not it is in the directory.

## Model

| member | source | states |
|---|---|---|
| `Server.ChatServer.constructor` | server/server.js:30-39 | Start-up state: no users, no messages, nobody typing, only `general`, empty reaction and seen tables, no socket.io rooms. The class invariant holds. |
| `Server.ChatServer.SenderName` | server/server.js:60 | The sender is the registered username when it is non-empty. It is `Anonymous` when the connection is unregistered or its name is empty, since `''` is falsy for `\|\|`. |
| `Server.ChatServer.OnUserJoin` | server/server.js:46-53 | The registry is the old one with this connection (re)filed in `general`. A re-join keeps its position. The connection leaves the room its old entry named and joins `general` (the corrected `user_join`, see Findings), so its socket.io rooms are exactly `general`. In the registry it is a member of `general` and of no other room; other connections keep their rooms. It emits the user list, `user_joined` and the room list, in that order, to everyone. |
| `Server.ChatServer.OnSendMessage` | server/server.js:56-73 | The stamped message is appended to the history. The store gains it at the end and drops its oldest entry exactly when it already held 100. The store never exceeds 100 and always equals the newest 100 of the history. The message goes to everyone. |
| `Server.ChatServer.OnTyping` | server/server.js:76-88 | An unregistered connection changes nothing and emits nothing. A registered one is recorded under its username when typing, and removed otherwise. It is in the typing set iff `isTyping`. The new name snapshot goes to everyone. |
| `Server.ChatServer.OnPrivateMessage` | server/server.js:91-103 | The same private message, with no room, goes to the recipient and back to the sender. The sender name follows `SenderName`. Nothing is stored. |
| `Server.ChatServer.OnRoomMessage` | server/server.js:106-120 | An unregistered sender gets no event and no acknowledgement. A registered sender's message is sent to its current room under its name. The acknowledgement `{delivered: true, messageId}` is given iff a callback was passed. |
| `Server.ChatServer.OnCreateRoom` | server/server.js:123-128 | A new name is appended and the list goes to everyone. An existing name changes nothing and emits nothing. `general` is never lost and names stay distinct. Existence is tested on the directory's own names (see Findings). |
| `Server.ChatServer.OnJoinRoom` | server/server.js:131-140 | A registered connection leaves its old room in socket.io and joins the named one, and its registry entry moves there with its position unchanged. The connection joins that room's members and leaves every other room's. The user list goes to everyone. An unregistered connection changes nothing. |
| `Server.ChatServer.OnDisconnect` | server/server.js:143-155 | `user_left` is emitted only for a registered connection. The connection leaves the registry, the typing set and every room, in the registry and in socket.io. No user in the broadcast list has its id. The user list and the typing snapshot always follow. |
| `Server.ChatServer.MembersReceiveRoomEvents` | server/server.js:117 | Under the invariant, a room's members by the registry are exactly the connections that joined it in socket.io, so `io.to(user.room)` reaches exactly them. |
| `Server.MembersAfterFiling` | server/server.js:136 | Filing a connection under a room adds it to that room's members and removes it from every other room's. |
| `Server.MembersAfterDropping` | server/server.js:152 | Deleting a connection from the registry removes it from every room's members. |
| `Server.ChatServer.OnAddReaction` | server/server.js:158-170 | The handler's in-place steps produce `WithReaction`. The reacting user is listed exactly once for that message and emoji. A repeated reaction leaves the table unchanged. The message's whole reaction map goes to everyone. |
| `Server.ChatServer.OnRoomFile` | server/server.js:173-186 | Like `room_message` with a file payload and no acknowledgement. An unregistered sender emits nothing. |
| `Server.ChatServer.OnPrivateFile` | server/server.js:189-200 | Like `private_message` with a file payload. |
| `Server.ChatServer.OnMessageSeen` | server/server.js:203-218 | The table becomes `WithSeen` and the user is listed exactly once. A repeated receipt emits nothing. A first receipt emits the whole seen list to the audience chosen by `SeenAudience`. |
| `Server.SeenAudience` | server/server.js:210-216 | The update goes to the named room iff a non-empty room name was given, and otherwise to the caller's own connection. |
| `OrderedMaps.OrderedMap.Values` | server/server.js:49 | `Object.values`: one value per key, the value of the i-th key at position i. |
| `OrderedMaps.OrderedMap.Put` | server/server.js:47 | Assigning a key gives it the value, leaves every other key and value as it was, and stays duplicate-free. An existing key keeps its position; a new key is appended. |
| `OrderedMaps.OrderedMap.Remove` | server/server.js:150-151 | `delete` removes the key, keeps the others with their values and order, and is a no-op for a missing key. |
| `OrderedMaps.ValuesAfterPut` | server/server.js:49 | `Object.values` after an assignment: a new key's value comes last; an existing key's value is replaced in place. |
| `OrderedMaps.ValuesAfterRemove` | server/server.js:153-154 | `Object.values` after a delete is the old list with exactly that key's value cut out. |
| `Lists.AddOnce` | server/server.js:166-167 | `includes`-then-`push`: the element is present afterwards. The old list is a prefix of the new one. Nothing else is added. The length grows by one iff the element was absent. A duplicate-free list stays duplicate-free. |
| `Lists.LastN` | server/server.js:229 | `slice(-n)` for `n > 0`: the result has `min(n, length)` elements and is the input's suffix of that length. `n > 0` is required because `slice(-0)` is the whole array. |
| `Lists.LastNSnoc` | server/server.js:65-70 | `push` then `shift` when over the bound keeps the last `n`: appending to the newest `n` of a history and evicting the oldest when full gives the newest `n` of the extended history. |
| `MessageStore.Filter` | server/server.js:224 | `Array.prototype.filter` returns at most as many messages as it is given. |
| `MessageStore.FilterSound` | server/server.js:224 | Every kept message is in the input and passes the test. |
| `MessageStore.FilterComplete` | server/server.js:224 | Every input message that passes the test is kept. |
| `MessageStore.FilterConcat` | server/server.js:224 | Filtering distributes over concatenation, so the input order is kept. |
| `MessageStore.FilterAll` | server/server.js:226 | A test every message passes keeps the whole input. |
| `MessageStore.FilterNone` | server/server.js:226 | A test no message passes keeps nothing. |
| `MessageStore.FilterFilter` | server/server.js:224-227 | Filtering by one test and then another equals filtering once by their conjunction. |
| `MessageStore.FilterAgree` | server/server.js:224-227 | Tests that agree on every message select the same messages. |
| `MessageStore.TwoFiltersMatch` | server/server.js:224-227 | The room filter, followed by the cursor filter only when `before` is given, selects exactly the messages of that room older than the cursor. |
| `MessageStore.Page` | server/server.js:222-230 | At most 20 messages. Each one is stored, in the requested room and older than the cursor when one is given. They are the newest such messages in store order. Fewer than 20 means all matches were returned. |
| `MessageStore.NewestMatching` | server/server.js:229 | The last 20 matches are stored messages that satisfy the query. |
| `MessageStore.FilterChronological` | server/server.js:224 | Filtering a history whose timestamps increase gives one whose timestamps increase. |
| `MessageStore.OlderThanIsPrefix` | server/server.js:226 | In a chronological list, the messages older than the k-th are exactly the first k. |
| `MessageStore.NextPageContinues` | server/server.js:222-230 | With increasing timestamps, using the oldest returned timestamp as the next `before` matches exactly the earlier matches that were not returned. The next page is their newest 20. |
| `MessageStore.FilterNonDecreasing` | server/server.js:224 | Filtering a history whose timestamps never decrease gives one whose timestamps never decrease. |
| `MessageStore.OlderThanIsPrefixWithTies` | server/server.js:226 | In a list whose timestamps never decrease, the messages strictly older than `t` are exactly a prefix. A message is in that prefix iff its timestamp is below `t`. |
| `MessageStore.NextPageSkipsTies` | server/server.js:222-230 | With timestamps that may tie, the next `before` cursor matches exactly the earlier matches strictly older than the oldest returned message. Every unreturned match between those and the page shares that oldest timestamp and is left out. |
| `MessageStore.TiedTimestampsLoseAMessage` | server/server.js:222-230 | Twenty-one messages of one room stored in one millisecond: the first page is the newest twenty, and the next page is empty, so the oldest message is never returned. |
| `Reactions.WithReaction` | server/server.js:158-168 | After a reaction the message and emoji entries exist. The user is added at the end of that emoji's list unless already present. Every other message and emoji keeps its list. |
| `Reactions.AddReactionSteps` | server/server.js:159-168 | Creating the missing map and list and pushing when `!includes` computes `WithReaction`. When the user is already listed nothing changes. |
| `Reactions.ReactionRecordedOnce` | server/server.js:165-167 | A reaction keeps every list duplicate-free. The user is then listed exactly once for that message and emoji. |
| `Reactions.ReactionIdempotent` | server/server.js:166 | Repeating a reaction changes nothing. |
| `Reactions.ReactionsOnlyGrow` | server/server.js:158-168 | Every list of reactors, for any message and emoji, is a prefix of its list after a reaction. |
| `SeenTracker.WithSeen` | server/server.js:204-208 | The table is unchanged iff the user was already listed. Otherwise the user is appended to that message's list. Other messages keep their lists. |
| `SeenTracker.MarkSeenSteps` | server/server.js:204-208 | Creating the missing list and pushing when `!includes` computes `WithSeen`. When the user is already listed nothing changes. |
| `SeenTracker.SeenTwice` | server/server.js:207-208 | After a receipt the table is duplicate-free and lists the user exactly once. A second identical receipt changes nothing. |
| `Rooms.CreateRoomAsWritten` | server/server.js:123-128 | As written: a name is added only when it is neither an existing room nor a property every object inherits. |
| `Rooms.InheritedNameIsNeverCreated` | server/server.js:124 | A room called `toString` is never created, although no such room exists. |
| `SocketRooms.Join` | server/server.js:135 | `socket.join(r)` adds `r` to that connection's rooms; every other connection keeps its rooms. |
| `SocketRooms.Leave` | server/server.js:134 | `socket.leave(r)` removes `r` from that connection's rooms; every other connection keeps its rooms. |
| `SocketRooms.LeaveAll` | server/server.js:143 | A disconnected socket is in no room; every other connection keeps its rooms. |
| `SocketRooms.UserJoinAsWritten` | server/server.js:47-48 | As written, `user_join` adds `general` to the connection's rooms and removes none. |
| `SocketRooms.JoinRoom` | server/server.js:134-135 | `join_room` removes the registry's room and adds the new one; any other room joined earlier is kept. |
| `SocketRooms.StaleRoomAfterRejoin` | server/server.js:47-48 | Join, move to `X`, join again, move to `Y`: the connection is still in `X`, so events sent to `X` keep reaching it. |
| `SocketRooms.UserJoin` | server/server.js:46-48 | The corrected `user_join` leaves the registry's room before joining `general`. A connection whose rooms were its registry room is then in `general` only; other connections keep their rooms. |
| `SocketRooms.UserJoinKeepsAgreement` | server/server.js:46-48 | The corrected `user_join` keeps socket.io's rooms equal to the registry's rooms. |
| `SocketRooms.JoinRoomKeepsAgreement` | server/server.js:133-136 | `join_room` keeps socket.io's rooms equal to the registry's rooms. |
| `SocketRooms.LeaveAllKeepsAgreement` | server/server.js:143-152 | Disconnecting keeps socket.io's rooms equal to the registry's rooms. |

## Left out

- socket.io and Express plumbing (resolving audiences to sockets, HTTP responses) is not modelled. Handlers return events with an audience instead. `socket.join`/`socket.leave` are modelled only as the ghost `joined` record.
- The room socket.io gives every connection under its own id is not recorded in `joined`. `Conn` and `OthersIn` audiences address it.
- `Server.ChatServer.Members` is the registry's view of a room. It equals socket.io's view only because the model's `user_join` leaves the old room first. As written, the two drift apart (see Findings).
- Logging and the `/api/users` route are not modelled. `/api/users` returns `Object.values(users)`, which `OrderedMap.Values` already models.
- `Date.now()` and `new Date().toISOString()` are replaced by integer parameters. Message ids are not assumed unique or increasing.
- `MessageStore.Page`: timestamps are integer instants. The source parses ISO strings with `new Date`. An unparsable `before` makes every comparison false there and gives an empty page; the model takes `before` as already parsed. An empty `before` string is falsy and is modelled as no cursor.
- Payloads are assumed to have the expected shapes. Extra client fields that `send_message` spreads into the stored message (`...messageData`) are not modelled; the draft carries content, room and the private flag.
- File data is opaque: name, MIME type and data are carried, never inspected.
- `Server.ChatServer.OnCreateRoom`: `Object.keys` lists integer-like names (`"7"`) before all others. The model keeps creation order for every name.
- Message ids are integers. The source's object keys stringify them, and a prototype-named id or emoji (for example `"constructor"`) misbehaves in `add_reaction` and `message_seen`. That is not modelled.
- The client (`client/src/App.jsx`) is not part of this model.
- Concurrency: Node runs each handler to completion, so each handler is one atomic method.

## Findings

| source | as written | input that shows it | evidently intended | confidence | as-written member | corrected member |
|---|---|---|---|---|---|---|
| server/server.js:47-48 | `user_join` calls `socket.join('general')` and never leaves the room the registry named | `user_join`, `join_room("X")`, `user_join`: the registry says `general`, but the socket is still in `X`, so `room_message` and `room_file` sent to `X` (lines 117, 184) reach it; a later `join_room("Y")` leaves only `general` (line 134), so it stays in `X` until it disconnects | a connection's socket.io rooms are exactly its registry room | not executed | `SocketRooms.UserJoinAsWritten`, `SocketRooms.StaleRoomAfterRejoin` | `SocketRooms.UserJoin`, `Server.ChatServer.OnUserJoin` |
| server/server.js:124 | `if (!rooms[roomName])` also reads properties that plain objects inherit | `create_room("toString")` with only `general` present: `rooms.toString` is a function, so it is truthy, and no room is created or announced | create a room whenever no room of that name exists | not executed | `Rooms.CreateRoomAsWritten`, `Rooms.InheritedNameIsNeverCreated` | `Server.ChatServer.OnCreateRoom` |
