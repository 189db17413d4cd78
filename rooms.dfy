/**
 The room directory: room names in creation order, the default room first.
 The source keeps the names as keys of a plain object and tests
 `!rooms[roomName]` before creating one.
 */
module Rooms {
  import opened Protocol

  /** The room that exists from start-up and that every joining user is put in. */
  const General: RoomName := "general"

  /** Names every plain JavaScript object inherits from `Object.prototype`. */
  const InheritedNames: set<string> := {
    "constructor", "hasOwnProperty", "isPrototypeOf", "propertyIsEnumerable",
    "toLocaleString", "toString", "valueOf", "__proto__",
    "__defineGetter__", "__defineSetter__", "__lookupGetter__", "__lookupSetter__"
  }

  /**
   `create_room` as written: `rooms[roomName]` is truthy for an existing room
   and also for an inherited property, so such a name is never added.
   */
  function CreateRoomAsWritten(rooms: seq<RoomName>, name: RoomName): (r: seq<RoomName>)
    ensures name in InheritedNames ==> r == rooms
    ensures name !in InheritedNames && name !in rooms ==> r == rooms + [name]
    ensures name in rooms ==> r == rooms
  {
    if name in rooms || name in InheritedNames then rooms else rooms + [name]
  }

  /** Counterexample: a room called "toString" can never be created, though none exists. */
  lemma InheritedNameIsNeverCreated()
    ensures "toString" !in [General]
    ensures "toString" !in CreateRoomAsWritten([General], "toString")
  {
  }
}
