/**
 The socket handlers of backend/server.js:144-300, one pure step each. Node runs
 a handler to completion before the next one starts, so every handler is one
 atomic step from a state to a state plus the events it emitted, in emit order.
 Ids, timestamps and token claims that the server takes from `Date.now`,
 `Math.random`, `new Date()` and `jwt.verify` are parameters.
 */
module Hub {
  import opened Wrappers
  import opened JsCollections
  import opened Directory

  const NotAuthenticated := "User not authenticated"
  const RoomNotFound := "Room not found"
  const NotInARoom := "User not in a room"

  /** The `rooms_updated` broadcast of `broadcastRoomList`: the snapshot of `st`, sent to every connected socket. */
  function RoomsUpdatedEvent(st: State): Event {
    Event(Connected(st), RoomsUpdated(RoomList(st)))
  }

  /** The directories after the `connection` handler bound the verified claims to the socket. */
  function AfterRegister(st: State, sid: SocketId, c: Claims): (st': State)
    ensures st'.rooms == st.rooms
    ensures st'.users.Keys == st.users.Keys + {sid}
    ensures st'.users[sid] == User(c.userId, c.name, c.email, c.photo, None)
    ensures forall s | s in st.users && s != sid :: st'.users[s] == st.users[s]
  {
    st.(users := st.users[sid := User(c.userId, c.name, c.email, c.photo, None)])
  }

  /** The `connection` handler: bind the claims, with no room yet, and confirm the login to the socket. */
  function Register(st: State, sid: SocketId, c: Claims): (r: Step)
    ensures r.state == AfterRegister(st, sid, c)
    ensures r.events == [Event({sid}, LoginSuccess(c.userId, c.name, c.email, c.photo))]
  {
    Step(AfterRegister(st, sid, c), [Event({sid}, LoginSuccess(c.userId, c.name, c.email, c.photo))])
  }

  /**
   The directories after `create_room` ran `chatRooms.set(roomId, ...)` with a
   generated id. The handler does not check the id against the table; `Map.set`
   replaces a room whose id collides, history and members included.
   */
  function AfterCreate(st: State, roomId: RoomId, name: string): (st': State)
    ensures st'.users == st.users
    ensures st'.rooms.entries.Keys == st.rooms.entries.Keys + {roomId}
    ensures st'.rooms.entries[roomId] == Room(name, [], [])
    ensures forall id | id in st.rooms.entries && id != roomId :: st'.rooms.entries[id] == st.rooms.entries[id]
    ensures roomId !in st.rooms.entries ==> st'.rooms.keys == st.rooms.keys + [roomId]
  {
    st.(rooms := Put(st.rooms, roomId, Room(name, [], [])))
  }

  /** `create_room`: acknowledge to the creator only, then send everyone the new room list. */
  function CreateRoom(st: State, sid: SocketId, roomId: RoomId, name: string): (r: Step)
    ensures r.state == AfterCreate(st, roomId, name)
    ensures |r.events| == 2
    ensures r.events[0] == Event({sid}, RoomCreated(roomId, name))
    ensures r.events[1] == Event(r.state.users.Keys, RoomsUpdated(RoomList(r.state)))
  {
    var st' := AfterCreate(st, roomId, name);
    Step(st', [Event({sid}, RoomCreated(roomId, name)), RoomsUpdatedEvent(st')])
  }

  /** The rooms after a socket left its current room, and the `user_left` notice it caused. */
  datatype Departure = Departure(rooms: OrderedMap<RoomId, Room>, events: seq<Event>)

  /**
   Leaving the current room, shared by `join_room` (backend/server.js:203-213)
   and `disconnect` (backend/server.js:285-294): when the user has a room that
   still exists, the socket is deleted from its members and the remaining
   members hear `user_left`.
   */
  function Depart(rooms: OrderedMap<RoomId, Room>, sid: SocketId, u: User): (d: Departure)
    ensures d.rooms.keys == rooms.keys
    ensures d.rooms.entries.Keys == rooms.entries.Keys
    ensures forall id | id in rooms.entries ::
              d.rooms.entries[id].name == rooms.entries[id].name
              && d.rooms.entries[id].messages == rooms.entries[id].messages
    ensures forall id | id in rooms.entries && Some(id) != u.currentRoom :: d.rooms.entries[id] == rooms.entries[id]
    ensures InRoom(u) && u.currentRoom.value in rooms.entries ==>
              var prev := u.currentRoom.value;
              var ms := rooms.entries[prev].members;
              && Elems(d.rooms.entries[prev].members) == Elems(ms) - {sid}
              && (sid !in ms ==> d.rooms.entries[prev].members == ms)
              && (forall i | 0 <= i < |ms| && ms[i] == sid :: d.rooms.entries[prev].members == ms[..i] + ms[i + 1..])
              && d.events == [Event(Elems(rooms.entries[prev].members) - {sid}, UserLeft(sid, u.name))]
    ensures !(InRoom(u) && u.currentRoom.value in rooms.entries) ==> d.rooms == rooms && d.events == []
  {
    if InRoom(u) && u.currentRoom.value in rooms.entries then
      var prev := u.currentRoom.value;
      var room := rooms.entries[prev];
      var left := room.(members := Delete(room.members, sid));
      assert Others(left.members, sid) == Elems(room.members) - {sid};
      Departure(Put(rooms, prev, left), [Event(Others(left.members, sid), UserLeft(sid, u.name))])
    else
      Departure(rooms, [])
  }

  /**
   The directories after a successful `join_room`: the socket left its current
   room, was added to the target's members, and the target is its current room.
   */
  function AfterJoin(st: State, sid: SocketId, roomId: RoomId): (st': State)
    requires sid in st.users && roomId in st.rooms.entries
    ensures st'.rooms.keys == st.rooms.keys
    ensures st'.rooms.entries.Keys == st.rooms.entries.Keys
    ensures st'.users.Keys == st.users.Keys
    ensures st'.users[sid] == st.users[sid].(currentRoom := Some(roomId))
    ensures forall s | s in st.users && s != sid :: st'.users[s] == st.users[s]
    ensures sid in st'.rooms.entries[roomId].members
    ensures forall id | id in st.rooms.entries ::
              st'.rooms.entries[id].name == st.rooms.entries[id].name
              && st'.rooms.entries[id].messages == st.rooms.entries[id].messages
    ensures forall id | id in st.rooms.entries && id != roomId && Some(id) != st.users[sid].currentRoom ::
              st'.rooms.entries[id] == st.rooms.entries[id]
  {
    var u := st.users[sid];
    var d := Depart(st.rooms, sid, u);
    var target := d.rooms.entries[roomId];
    State(Put(d.rooms, roomId, target.(members := Add(target.members, sid))),
          st.users[sid := u.(currentRoom := Some(roomId))])
  }

  /** `join_room`: leave the current room, enter the target, and tell everyone concerned. */
  function JoinRoom(st: State, sid: SocketId, roomId: RoomId): (r: Step)
    ensures sid !in st.users ==>
              r == Step(st, [Event({sid}, Error(NotAuthenticated))])
    ensures sid in st.users && roomId !in st.rooms.entries ==>
              r == Step(st, [Event({sid}, Error(RoomNotFound))])
    ensures sid in st.users && roomId in st.rooms.entries ==>
              r.state == AfterJoin(st, sid, roomId)
  {
    if sid !in st.users then
      Step(st, [Event({sid}, Error(NotAuthenticated))])
    else if roomId !in st.rooms.entries then
      Step(st, [Event({sid}, Error(RoomNotFound))])
    else
      var u := st.users[sid];
      var st' := AfterJoin(st, sid, roomId);
      var joined := st'.rooms.entries[roomId];
      Step(st', Depart(st.rooms, sid, u).events + [
        Event({sid}, RoomJoined(roomId, joined.name, joined.messages, MemberList(joined.members, st'.users))),
        Event(Others(joined.members, sid), UserJoined(sid, u.name, u.photo)),
        RoomsUpdatedEvent(st')
      ])
  }

  /** The directories after `send_message` appended `m` to the history of room `roomId`. */
  function AfterSend(st: State, roomId: RoomId, m: Message): (st': State)
    requires roomId in st.rooms.entries
    ensures st'.users == st.users
    ensures st'.rooms.keys == st.rooms.keys
    ensures st'.rooms.entries.Keys == st.rooms.entries.Keys
    ensures st'.rooms.entries[roomId].messages == st.rooms.entries[roomId].messages + [m]
    ensures st'.rooms.entries[roomId].name == st.rooms.entries[roomId].name
    ensures st'.rooms.entries[roomId].members == st.rooms.entries[roomId].members
    ensures forall id | id in st.rooms.entries && id != roomId :: st'.rooms.entries[id] == st.rooms.entries[id]
  {
    var room := st.rooms.entries[roomId];
    st.(rooms := Put(st.rooms, roomId, room.(messages := room.messages + [m])))
  }

  /**
   `send_message`: a sender with a current room that exists appends one message
   carrying its socket id, name and photo, and the message goes to every member
   of the room, the sender included.
   */
  function SendMessage(st: State, sid: SocketId, msgId: string, text: string, timestamp: string): (r: Step)
    ensures sid !in st.users || !InRoom(st.users[sid]) ==>
              r == Step(st, [Event({sid}, Error(NotInARoom))])
    ensures sid in st.users && InRoom(st.users[sid]) && st.users[sid].currentRoom.value !in st.rooms.entries ==>
              r == Step(st, [Event({sid}, Error(RoomNotFound))])
    ensures sid in st.users && InRoom(st.users[sid]) && st.users[sid].currentRoom.value in st.rooms.entries ==>
              var u := st.users[sid];
              var roomId := u.currentRoom.value;
              var m := Message(msgId, text, sid, u.name, u.photo, timestamp);
              && r.state == AfterSend(st, roomId, m)
              && r.events == [Event(Elems(st.rooms.entries[roomId].members), NewMessage(m))]
  {
    if sid !in st.users || !InRoom(st.users[sid]) then
      Step(st, [Event({sid}, Error(NotInARoom))])
    else
      var u := st.users[sid];
      var roomId := u.currentRoom.value;
      if roomId !in st.rooms.entries then
        Step(st, [Event({sid}, Error(RoomNotFound))])
      else
        var m := Message(msgId, text, sid, u.name, u.photo, timestamp);
        Step(AfterSend(st, roomId, m), [Event(Elems(st.rooms.entries[roomId].members), NewMessage(m))])
  }

  /** The directories after `disconnect`: out of its room, and the user entry gone. */
  function AfterDisconnect(st: State, sid: SocketId): (st': State)
    ensures st'.users == st.users - {sid}
    ensures st'.rooms.keys == st.rooms.keys
    ensures st'.rooms.entries.Keys == st.rooms.entries.Keys
    ensures forall id | id in st.rooms.entries ::
              st'.rooms.entries[id].name == st.rooms.entries[id].name
              && st'.rooms.entries[id].messages == st.rooms.entries[id].messages
    ensures sid !in st.users ==> st'.rooms == st.rooms
    ensures forall id | id in st.rooms.entries && (sid !in st.users || Some(id) != st.users[sid].currentRoom) ::
              st'.rooms.entries[id] == st.rooms.entries[id]
    ensures sid in st.users && InRoom(st.users[sid]) && st.users[sid].currentRoom.value in st.rooms.entries ==>
              var ms := st.rooms.entries[st.users[sid].currentRoom.value].members;
              var ms' := st'.rooms.entries[st.users[sid].currentRoom.value].members;
              && sid !in ms'
              && (sid !in ms ==> ms' == ms)
              && (forall i | 0 <= i < |ms| && ms[i] == sid :: ms' == ms[..i] + ms[i + 1..])
  {
    var rooms' := if sid in st.users then Depart(st.rooms, sid, st.users[sid]).rooms else st.rooms;
    State(rooms', st.users - {sid})
  }

  /** `disconnect`: leave the current room, drop the user entry, and refresh everyone's room list. */
  function Disconnect(st: State, sid: SocketId): (r: Step)
    ensures r.state == AfterDisconnect(st, sid)
    ensures 1 <= |r.events| <= 2
    ensures r.events[|r.events| - 1] == Event(st.users.Keys - {sid}, RoomsUpdated(RoomList(r.state)))
    ensures sid !in st.users ==> |r.events| == 1
  {
    var st' := AfterDisconnect(st, sid);
    var left := if sid in st.users then Depart(st.rooms, sid, st.users[sid]).events else [];
    Step(st', left + [RoomsUpdatedEvent(st')])
  }
}
