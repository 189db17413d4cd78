/**
 socket.io's own record of the rooms each connection has joined. An event
 sent with `io.to(r)` reaches exactly the connections that joined `r`,
 whatever the registry's `room` field says. A connection leaves all its
 rooms when it disconnects. The room socket.io gives every connection under
 its own id is not recorded here; `Conn` and `OthersIn` audiences address it.
 */
module SocketRooms {
  import opened Wrappers
  import opened Protocol
  import opened Rooms

  type Joined = map<ConnId, set<RoomName>>

  /** The rooms `c` has joined; none when it has no entry. */
  function JoinedRooms(j: Joined, c: ConnId): set<RoomName> {
    if c in j then j[c] else {}
  }

  /** `socket.join(r)`: only `c`'s rooms change, and `r` is among them. */
  function Join(j: Joined, c: ConnId, r: RoomName): (res: Joined)
    ensures JoinedRooms(res, c) == JoinedRooms(j, c) + {r}
    ensures forall d :: d != c ==> JoinedRooms(res, d) == JoinedRooms(j, d)
  {
    j[c := JoinedRooms(j, c) + {r}]
  }

  /** `socket.leave(r)`: only `c`'s rooms change, and `r` is not among them. */
  function Leave(j: Joined, c: ConnId, r: RoomName): (res: Joined)
    ensures JoinedRooms(res, c) == JoinedRooms(j, c) - {r}
    ensures forall d :: d != c ==> JoinedRooms(res, d) == JoinedRooms(j, d)
  {
    j[c := JoinedRooms(j, c) - {r}]
  }

  /** Disconnecting leaves every room; other connections keep theirs. */
  function LeaveAll(j: Joined, c: ConnId): (res: Joined)
    ensures JoinedRooms(res, c) == {}
    ensures forall d :: d != c ==> JoinedRooms(res, d) == JoinedRooms(j, d)
  {
    j - {c}
  }

  /** `user_join` as written: `socket.join('general')`, leaving nothing. */
  function UserJoinAsWritten(j: Joined, c: ConnId): (res: Joined)
    ensures JoinedRooms(res, c) == JoinedRooms(j, c) + {General}
    ensures forall d :: d != c ==> JoinedRooms(res, d) == JoinedRooms(j, d)
  {
    Join(j, c, General)
  }

  /**
   `join_room` for a registered connection whose registry room is `from`:
   leave `from`, then join `to`. Any other room joined earlier is kept.
   */
  function JoinRoom(j: Joined, c: ConnId, from: RoomName, to: RoomName): (res: Joined)
    ensures JoinedRooms(res, c) == (JoinedRooms(j, c) - {from}) + {to}
    ensures forall d :: d != c ==> JoinedRooms(res, d) == JoinedRooms(j, d)
  {
    Join(Leave(j, c, from), c, to)
  }

  /**
   Counterexample: join, move to "X", join again, move to "Y". The registry
   says "Y", but the connection never left "X", so it still receives what is
   sent to "X", and it will until it disconnects.
   */
  lemma StaleRoomAfterRejoin()
    ensures var j1 := UserJoinAsWritten(map[], "c");
            var j2 := JoinRoom(j1, "c", General, "X");
            var j3 := UserJoinAsWritten(j2, "c");
            var j4 := JoinRoom(j3, "c", General, "Y");
            && JoinedRooms(j3, "c") == {"X", General}
            && JoinedRooms(j4, "c") == {"X", "Y"}
  {
    var j1 := UserJoinAsWritten(map[], "c");
    var j2 := JoinRoom(j1, "c", General, "X");
    assert JoinedRooms(j2, "c") == {"X"};
    var j3 := UserJoinAsWritten(j2, "c");
    assert JoinedRooms(j3, "c") == {"X", General};
    var j4 := JoinRoom(j3, "c", General, "Y");
    assert JoinedRooms(j4, "c") == ({"X", General} - {General}) + {"Y"};
  }

  /**
   `user_join` corrected: leave the room the registry has the connection in
   (`current`), then join the default room. A connection whose rooms were
   exactly its registry room is then in the default room only.
   */
  function UserJoin(j: Joined, c: ConnId, current: Option<RoomName>): (res: Joined)
    ensures (JoinedRooms(j, c) == if current.Some? then {current.value} else {}) ==>
      JoinedRooms(res, c) == {General}
    ensures forall d :: d != c ==> JoinedRooms(res, d) == JoinedRooms(j, d)
  {
    Join(if current.Some? then Leave(j, c, current.value) else j, c, General)
  }

  /** Every registered connection has joined exactly its registry room, and no other connection any room. */
  ghost predicate Agrees(j: Joined, entries: map<ConnId, User>) {
    forall c :: JoinedRooms(j, c) == if c in entries then {entries[c].room} else {}
  }

  /** The corrected `user_join` keeps socket.io's rooms in step with the registry. */
  lemma UserJoinKeepsAgreement(j: Joined, entries: map<ConnId, User>, c: ConnId, u: User)
    requires Agrees(j, entries) && u.room == General
    ensures Agrees(UserJoin(j, c, if c in entries then Some(entries[c].room) else None), entries[c := u])
  {
    var r := UserJoin(j, c, if c in entries then Some(entries[c].room) else None);
    forall d ensures JoinedRooms(r, d) == if d in entries[c := u] then {entries[c := u][d].room} else {} {
      assert JoinedRooms(j, d) == if d in entries then {entries[d].room} else {};
    }
  }

  /** `join_room` keeps socket.io's rooms in step with the registry. */
  lemma JoinRoomKeepsAgreement(j: Joined, entries: map<ConnId, User>, c: ConnId, to: RoomName)
    requires Agrees(j, entries) && c in entries
    ensures Agrees(JoinRoom(j, c, entries[c].room, to), entries[c := entries[c].(room := to)])
  {
    var r := JoinRoom(j, c, entries[c].room, to);
    var e := entries[c := entries[c].(room := to)];
    forall d ensures JoinedRooms(r, d) == if d in e then {e[d].room} else {} {
      assert JoinedRooms(j, d) == if d in entries then {entries[d].room} else {};
    }
  }

  /** Disconnecting keeps socket.io's rooms in step with the registry. */
  lemma LeaveAllKeepsAgreement(j: Joined, entries: map<ConnId, User>, c: ConnId)
    requires Agrees(j, entries)
    ensures Agrees(LeaveAll(j, c), entries - {c})
  {
    var r := LeaveAll(j, c);
    forall d ensures JoinedRooms(r, d) == if d in entries - {c} then {(entries - {c})[d].room} else {} {
      assert JoinedRooms(j, d) == if d in entries then {entries[d].room} else {};
    }
  }
}
