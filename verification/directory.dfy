/**
 The hub's in-memory directories (backend/server.js:26-27) and the events its
 handlers emit.

 `chatRooms` maps a room id to its name, its message history and the set of
 sockets in it; `users` maps a socket id to the identity bound to that socket
 and the room it is currently in. Socket.IO's own room membership
 (`socket.join`/`socket.leave`) is taken to be the room's `members`, and the
 sockets `io.emit` reaches are the registered ones, the keys of `users`.
 */
module Directory {
  import opened Wrappers
  import opened JsCollections

  type SocketId = string
  type RoomId = string

  datatype Message = Message(
    id: string,
    text: string,
    userId: SocketId,
    userName: string,
    userPhoto: string,
    timestamp: string)

  datatype Room = Room(name: string, messages: seq<Message>, members: OrderedSet<SocketId>)

  datatype User = User(id: string, name: string, email: string, photo: string, currentRoom: Option<RoomId>)

  /** The claims of a verified session token, bound to a socket when it connects. */
  datatype Claims = Claims(userId: string, name: string, email: string, photo: string)

  datatype State = State(rooms: OrderedMap<RoomId, Room>, users: map<SocketId, User>)

  /** Both directories as the process starts: empty. */
  const Boot: State := State(Table([], map[]), map[])

  /** `if (user.currentRoom)`: null and the empty string are both falsy. */
  predicate InRoom(u: User) {
    u.currentRoom.Some? && u.currentRoom.value != ""
  }

  /** The sockets an `io.emit` reaches. */
  function Connected(st: State): set<SocketId> {
    st.users.Keys
  }

  /** `socket.to(room)`: every member of the room except the acting socket. */
  function Others(members: OrderedSet<SocketId>, sid: SocketId): set<SocketId> {
    Elems(members) - {sid}
  }

  datatype MemberInfo = MemberInfo(id: SocketId, name: string, photo: string)

  datatype Badge = Badge(name: string, photo: string)

  datatype RoomSummary = RoomSummary(id: RoomId, name: string, userCount: nat, users: seq<Badge>)

  datatype Payload =
    | LoginSuccess(id: string, name: string, email: string, photo: string)
    | RoomCreated(roomId: RoomId, roomName: string)
    | RoomJoined(roomId: RoomId, roomName: string, messages: seq<Message>, members: seq<MemberInfo>)
    | UserJoined(userId: SocketId, userName: string, userPhoto: string)
    | UserLeft(userId: SocketId, userName: string)
    | NewMessage(message: Message)
    | RoomsUpdated(rooms: seq<RoomSummary>)
    | Error(reason: string)

  /** One `emit`: who receives it and what it carries. */
  datatype Event = Event(recipients: set<SocketId>, payload: Payload)

  /** What one handler leaves behind: the directories after it ran and its emits, in order. */
  datatype Step = Step(state: State, events: seq<Event>)

  /**
   `Array.from(room.users).map(id => users.get(id) ? ... : null).filter(Boolean)`:
   the members that still have a user entry, in the set's order.
   */
  function Present(members: seq<SocketId>, users: map<SocketId, User>): (p: seq<SocketId>)
    ensures forall s :: s in p <==> s in members && s in users
    ensures |p| <= |members|
    ensures (forall s | s in members :: s in users) ==> p == members
    ensures Subsequence(p, members)
  {
    if members == [] then []
    else
      var rest := Present(members[1..], users);
      assert members == [members[0]] + members[1..];
      if members[0] in users then [members[0]] + rest else rest
  }

  /** The member list a `room_joined` reply carries. */
  function MemberList(members: seq<SocketId>, users: map<SocketId, User>): seq<MemberInfo> {
    var p := Present(members, users);
    seq(|p|, i requires 0 <= i < |p| => MemberInfo(p[i], users[p[i]].name, users[p[i]].photo))
  }

  /** One entry of the room list. */
  function Summary(id: RoomId, room: Room, users: map<SocketId, User>): RoomSummary {
    var p := Present(room.members, users);
    RoomSummary(id, room.name, |room.members|,
                seq(|p|, i requires 0 <= i < |p| => Badge(users[p[i]].name, users[p[i]].photo)))
  }

  /**
   The room-list snapshot of `broadcastRoomList` and `GET /api/rooms`: one entry
   per room, in the room table's insertion order.
   */
  function RoomList(st: State): (r: seq<RoomSummary>)
    ensures |r| == |st.rooms.keys|
    ensures forall i | 0 <= i < |r| :: r[i].id == st.rooms.keys[i]
    ensures forall i | 0 <= i < |r| :: r[i].id in st.rooms.entries
    ensures forall i | 0 <= i < |r| :: r[i].name == st.rooms.entries[r[i].id].name
    ensures forall i | 0 <= i < |r| :: r[i].userCount == |Elems(st.rooms.entries[r[i].id].members)|
  {
    var ks := st.rooms.keys;
    assert forall i | 0 <= i < |ks| :: ks[i] in Elems(ks);
    var r := seq(|ks|, i requires 0 <= i < |ks| => Summary(ks[i], st.rooms.entries[ks[i]], st.users));
    forall i | 0 <= i < |r| ensures r[i].userCount == |Elems(st.rooms.entries[r[i].id].members)| {
      SizeIsLength(st.rooms.entries[ks[i]].members);
    }
    r
  }
}
