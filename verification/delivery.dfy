/**
 Who hears what. For each handler, starting from consistent directories: the
 events it emits, in order, with their recipients and payloads, and what it
 does to membership and history.
 */
module Delivery {
  import opened Wrappers
  import opened JsCollections
  import opened Directory
  import opened Hub
  import opened Consistency

  /** Under the invariant every member has a user entry, so the `filter(Boolean)` drops nobody. */
  lemma MembersArePresent(st: State, id: RoomId)
    requires Consistent(st) && id in st.rooms.entries
    ensures Present(st.rooms.entries[id].members, st.users) == st.rooms.entries[id].members
  {
  }

  /** Every room has exactly one entry in the room list. */
  lemma RoomListCoversRooms(st: State)
    ensures forall id :: id in st.rooms.entries <==> exists i | 0 <= i < |RoomList(st)| :: RoomList(st)[i].id == id
  {
    var r := RoomList(st);
    var ks := st.rooms.keys;
    forall id | id in st.rooms.entries
      ensures exists i | 0 <= i < |r| :: r[i].id == id
    {
      assert id in Elems(ks);
      var i :| 0 <= i < |ks| && ks[i] == id;
      assert r[i].id == id;
    }
    forall id | exists i | 0 <= i < |r| :: r[i].id == id
      ensures id in st.rooms.entries
    {
      var i :| 0 <= i < |r| && r[i].id == id;
      assert ks[i] in Elems(ks);
    }
  }

  /**
   Under the invariant a room's entry in the room list names every member once,
   in the members' order, so the length of `users` equals `userCount`.
   */
  lemma SummaryListsEveryMember(st: State, id: RoomId)
    requires Consistent(st) && id in st.rooms.entries
    ensures var room := st.rooms.entries[id];
            var e := Summary(id, room, st.users);
            && e.userCount == |Elems(room.members)|
            && |e.users| == e.userCount
            && forall j | 0 <= j < |e.users| ::
                 room.members[j] in st.users
                 && e.users[j] == Badge(st.users[room.members[j]].name, st.users[room.members[j]].photo)
  {
    MembersArePresent(st, id);
    SizeIsLength(st.rooms.entries[id].members);
  }

  /** The `i`-th entry of the room list is the summary of the `i`-th room. */
  lemma RoomListEntry(st: State, i: int)
    requires 0 <= i < |RoomList(st)|
    ensures RoomList(st)[i] == Summary(RoomList(st)[i].id, st.rooms.entries[RoomList(st)[i].id], st.users)
  {
  }

  /** Under the invariant, one entry of the room list carries every member's badge, in member order. */
  lemma RoomListEntryBadges(st: State, i: int)
    requires Consistent(st) && 0 <= i < |RoomList(st)|
    ensures var e := RoomList(st)[i];
            var ms := st.rooms.entries[e.id].members;
            && |e.users| == e.userCount == |ms|
            && forall j | 0 <= j < |e.users| ::
                 ms[j] in st.users && e.users[j] == Badge(st.users[ms[j]].name, st.users[ms[j]].photo)
  {
    var e := RoomList(st)[i];
    var room := st.rooms.entries[e.id];
    RoomListEntry(st, i);
    assert e == Summary(e.id, room, st.users);
    SummaryListsEveryMember(st, e.id);
  }

  /**
   The same for the whole room list, broadcast or served by `GET /api/rooms`:
   each entry's `users` holds the display name and photo of each member of the
   room, in member order, and so has `userCount` entries.
   */
  lemma RoomListIsComplete(st: State)
    requires Consistent(st)
    ensures forall i | 0 <= i < |RoomList(st)| ::
              var ms := st.rooms.entries[RoomList(st)[i].id].members;
              && |RoomList(st)[i].users| == RoomList(st)[i].userCount == |ms|
              && forall j | 0 <= j < |RoomList(st)[i].users| ::
                   ms[j] in st.users && RoomList(st)[i].users[j] == Badge(st.users[ms[j]].name, st.users[ms[j]].photo)
  {
    forall i | 0 <= i < |RoomList(st)|
      ensures var ms := st.rooms.entries[RoomList(st)[i].id].members;
              && |RoomList(st)[i].users| == RoomList(st)[i].userCount == |ms|
              && forall j | 0 <= j < |RoomList(st)[i].users| ::
                   ms[j] in st.users && RoomList(st)[i].users[j] == Badge(st.users[ms[j]].name, st.users[ms[j]].photo)
    {
      RoomListEntryBadges(st, i);
    }
  }

  /**
   A successful `join_room` moves the socket: afterwards it is in the target
   room and in no other, and its previous room lost it and nobody else.
   */
  lemma JoinRoomMovesSocket(st: State, sid: SocketId, roomId: RoomId)
    requires Consistent(st) && sid in st.users && roomId in st.rooms.entries
    ensures var st' := JoinRoom(st, sid, roomId).state;
            var u := st.users[sid];
            && st'.users[sid].currentRoom == Some(roomId)
            && (forall id | id in st'.rooms.entries :: sid in st'.rooms.entries[id].members <==> id == roomId)
            && (InRoom(u) && u.currentRoom.value != roomId ==>
                  var prev := u.currentRoom.value;
                  Elems(st'.rooms.entries[prev].members) == Elems(st.rooms.entries[prev].members) - {sid})
  {
    AfterJoinMembership(st, sid, roomId);
    var u := st.users[sid];
    if InRoom(u) && u.currentRoom.value != roomId {
      JoinLeavesPreviousInOrder(st, sid, roomId);
      var prev := u.currentRoom.value;
      var st' := AfterJoin(st, sid, roomId);
      assert Elems(st'.rooms.entries[prev].members) == Elems(st.rooms.entries[prev].members) - {sid} by {
        forall s ensures s in st'.rooms.entries[prev].members <==> s in st.rooms.entries[prev].members && s != sid {
          if s != sid {
            assert s in st'.rooms.entries[prev].members <==> s in st.rooms.entries[prev].members;
          }
        }
      }
    }
  }

  /**
   The room a successful `join_room` leaves loses exactly the joining socket,
   and its remaining members keep their order.
   */
  lemma JoinLeavesPreviousInOrder(st: State, sid: SocketId, roomId: RoomId)
    requires sid in st.users && roomId in st.rooms.entries
    requires InRoom(st.users[sid]) && st.users[sid].currentRoom.value in st.rooms.entries
    requires st.users[sid].currentRoom.value != roomId
    ensures var prev := st.users[sid].currentRoom.value;
            var ms := st.rooms.entries[prev].members;
            var ms' := AfterJoin(st, sid, roomId).rooms.entries[prev].members;
            && sid !in ms'
            && (sid !in ms ==> ms' == ms)
            && (forall i | 0 <= i < |ms| && ms[i] == sid :: ms' == ms[..i] + ms[i + 1..])
  {
    var prev := st.users[sid].currentRoom.value;
    var d := Depart(st.rooms, sid, st.users[sid]);
    assert AfterJoin(st, sid, roomId).rooms.entries[prev] == d.rooms.entries[prev];
  }

  /**
   A joining socket goes to the end of the target's member order (a JS `Set`
   keeps insertion order) and nobody else moves. A socket rejoining its own
   room is deleted first and added back, so it moves to the end as well.
   */
  lemma JoinAppendsMember(st: State, sid: SocketId, roomId: RoomId)
    requires Consistent(st) && sid in st.users && roomId in st.rooms.entries
    ensures var ms := st.rooms.entries[roomId].members;
            AfterJoin(st, sid, roomId).rooms.entries[roomId].members == Delete(ms, sid) + [sid]
    ensures st.users[sid].currentRoom != Some(roomId) ==>
              AfterJoin(st, sid, roomId).rooms.entries[roomId].members == st.rooms.entries[roomId].members + [sid]
  {
    var dm := Depart(st.rooms, sid, st.users[sid]).rooms.entries[roomId].members;
    JoinTargetIsAdd(st, sid, roomId);
    DepartFromTarget(st, sid, roomId);
    AddAbsent(dm, sid);
  }

  /** A join adds the socket to the target as `Depart` left it. */
  lemma JoinTargetIsAdd(st: State, sid: SocketId, roomId: RoomId)
    requires sid in st.users && roomId in st.rooms.entries
    ensures var d := Depart(st.rooms, sid, st.users[sid]);
            AfterJoin(st, sid, roomId).rooms.entries[roomId].members == Add(d.rooms.entries[roomId].members, sid)
  {
  }

  /** Under the invariant, leaving takes the socket out of the target exactly as `Set.delete` would. */
  lemma DepartFromTarget(st: State, sid: SocketId, roomId: RoomId)
    requires Consistent(st) && sid in st.users && roomId in st.rooms.entries
    ensures var ms := st.rooms.entries[roomId].members;
            var dm := Depart(st.rooms, sid, st.users[sid]).rooms.entries[roomId].members;
            && dm == Delete(ms, sid)
            && sid !in dm
            && (st.users[sid].currentRoom != Some(roomId) ==> dm == ms)
  {
    var u := st.users[sid];
    var ms := st.rooms.entries[roomId].members;
    var dm := Depart(st.rooms, sid, u).rooms.entries[roomId].members;
    if u.currentRoom == Some(roomId) {
      assert sid in ms;
      var i :| 0 <= i < |ms| && ms[i] == sid;
      assert dm == ms[..i] + ms[i + 1..] == Delete(ms, sid);
      assert sid !in Elems(dm);
    } else {
      assert dm == ms;
      assert sid !in ms;
    }
  }

  /** Adding an element that is not there yet appends it. */
  lemma AddAbsent<T>(s: OrderedSet<T>, x: T)
    requires x !in s
    ensures Add(s, x) == s + [x]
  {
    var r := Add(s, x);
    assert r[|s|] in Elems(r);
    assert r == r[..|s|] + [r[|s|]];
  }

  /**
   The notices of a successful `join_room`, in order: when the socket had a
   room, that room's other members hear `user_left` first; then the joiner's
   reply; then the target's other members hear `user_joined`; last, everyone
   gets the room list.
   */
  lemma JoinRoomNoticeOrder(st: State, sid: SocketId, roomId: RoomId)
    requires Consistent(st) && sid in st.users && roomId in st.rooms.entries
    ensures var r := JoinRoom(st, sid, roomId);
            var u := st.users[sid];
            var k := if InRoom(u) then 1 else 0;
            && |r.events| == k + 3
            && (InRoom(u) ==>
                  var prev := u.currentRoom.value;
                  r.events[0] == Event(Elems(st.rooms.entries[prev].members) - {sid}, UserLeft(sid, u.name)))
            && r.events[k].recipients == {sid}
            && r.events[k].payload.RoomJoined?
            && r.events[k + 1] == Event(Elems(r.state.rooms.entries[roomId].members) - {sid}, UserJoined(sid, u.name, u.photo))
            && r.events[k + 2] == Event(st.users.Keys, RoomsUpdated(RoomList(r.state)))
  {
    var u := st.users[sid];
    var st' := AfterJoin(st, sid, roomId);
    var joined := st'.rooms.entries[roomId];
    JoinRoomEvents(st, sid, roomId);
    DepartedNoticeCount(st, sid);
    assert Connected(st') == st.users.Keys;
    AppendThree(Depart(st.rooms, sid, u).events,
      Event({sid}, RoomJoined(roomId, joined.name, joined.messages, MemberList(joined.members, st'.users))),
      Event(Others(joined.members, sid), UserJoined(sid, u.name, u.photo)),
      RoomsUpdatedEvent(st'));
  }

  lemma AppendThree<T>(left: seq<T>, a: T, b: T, c: T)
    ensures var s := left + [a, b, c];
            && |s| == |left| + 3
            && s[|left|] == a && s[|left| + 1] == b && s[|left| + 2] == c
            && (|left| > 0 ==> s[0] == left[0])
  {
  }

  /** The emits of a successful `join_room`: the leaving notices, then the reply, `user_joined` and the room list. */
  lemma JoinRoomEvents(st: State, sid: SocketId, roomId: RoomId)
    requires sid in st.users && roomId in st.rooms.entries
    ensures var r := JoinRoom(st, sid, roomId);
            var u := st.users[sid];
            var st' := AfterJoin(st, sid, roomId);
            var joined := st'.rooms.entries[roomId];
            r.events == Depart(st.rooms, sid, u).events + [
              Event({sid}, RoomJoined(roomId, joined.name, joined.messages, MemberList(joined.members, st'.users))),
              Event(Others(joined.members, sid), UserJoined(sid, u.name, u.photo)),
              RoomsUpdatedEvent(st')]
  {
  }

  /** Under the invariant, leaving emits one `user_left` exactly when the user had a room. */
  lemma DepartedNoticeCount(st: State, sid: SocketId)
    requires Consistent(st) && sid in st.users
    ensures |Depart(st.rooms, sid, st.users[sid]).events| == if InRoom(st.users[sid]) then 1 else 0
  {
    var u := st.users[sid];
    if InRoom(u) {
      assert u.currentRoom.value in st.rooms.entries;
    }
  }

  /**
   The joiner's `room_joined` reply carries the target's name, its full
   history and the member list of the target's members after the join.
   */
  lemma JoinRoomReply(st: State, sid: SocketId, roomId: RoomId)
    requires Consistent(st) && sid in st.users && roomId in st.rooms.entries
    ensures var r := JoinRoom(st, sid, roomId);
            var joined := r.state.rooms.entries[roomId];
            r.events[if InRoom(st.users[sid]) then 1 else 0].payload
              == RoomJoined(roomId, st.rooms.entries[roomId].name, st.rooms.entries[roomId].messages,
                            MemberList(joined.members, r.state.users))
  {
    DepartedNoticeCount(st, sid);
  }

  /**
   That member list has one entry per member of the joined room, in the
   members' order, and the joiner is among them.
   */
  lemma JoinedMemberList(st: State, sid: SocketId, roomId: RoomId)
    requires Consistent(st) && sid in st.users && roomId in st.rooms.entries
    ensures var st' := AfterJoin(st, sid, roomId);
            var joined := st'.rooms.entries[roomId];
            var list := MemberList(joined.members, st'.users);
            && |list| == |joined.members|
            && (forall i | 0 <= i < |joined.members| :: list[i].id == joined.members[i])
            && MemberInfo(sid, st.users[sid].name, st.users[sid].photo) in list
  {
    var st' := AfterJoin(st, sid, roomId);
    var joined := st'.rooms.entries[roomId];
    AfterJoinKeepsConsistent(st, sid, roomId);
    MemberListNamesEveryMember(joined.members, st'.users);
  }

  /** When every member has a user entry, the member list of a `room_joined` reply has one entry per member, in order. */
  lemma MemberListNamesEveryMember(members: seq<SocketId>, users: map<SocketId, User>)
    requires forall s | s in members :: s in users
    ensures var list := MemberList(members, users);
            && |list| == |members|
            && forall i | 0 <= i < |members| ::
                 list[i] == MemberInfo(members[i], users[members[i]].name, users[members[i]].photo)
    ensures forall s | s in members :: MemberInfo(s, users[s].name, users[s].photo) in MemberList(members, users)
  {
    var list := MemberList(members, users);
    forall s | s in members
      ensures MemberInfo(s, users[s].name, users[s].photo) in list
    {
      var i :| 0 <= i < |members| && members[i] == s;
      assert list[i] == MemberInfo(s, users[s].name, users[s].photo);
    }
  }

  /**
   A successful `send_message`: the room's history grows by exactly the new
   message, at the end; no other room changes; the message carries the
   sender's socket id, name and photo and reaches all N members of the room,
   the sender among them.
   */
  lemma SendMessageDelivers(st: State, sid: SocketId, msgId: string, text: string, timestamp: string)
    requires Consistent(st) && sid in st.users && st.users[sid].currentRoom.Some?
    ensures var r := SendMessage(st, sid, msgId, text, timestamp);
            var u := st.users[sid];
            var roomId := u.currentRoom.value;
            var m := Message(msgId, text, sid, u.name, u.photo, timestamp);
            && roomId in st.rooms.entries
            && r.state.rooms.entries[roomId].messages == st.rooms.entries[roomId].messages + [m]
            && (forall id | id in st.rooms.entries && id != roomId :: r.state.rooms.entries[id] == st.rooms.entries[id])
            && r.state.users == st.users
            && |r.events| == 1
            && r.events[0].payload == NewMessage(m)
            && sid in r.events[0].recipients
            && r.events[0].recipients == Elems(st.rooms.entries[roomId].members)
            && |r.events[0].recipients| == |st.rooms.entries[roomId].members|
  {
    var roomId := st.users[sid].currentRoom.value;
    SizeIsLength(st.rooms.entries[roomId].members);
  }

  /**
   `disconnect`: the socket is in no room afterwards and its user entry is
   gone; only when it had a room do that room's remaining members hear
   `user_left`; everyone still connected gets the room list.
   */
  lemma DisconnectNotifies(st: State, sid: SocketId)
    requires Consistent(st) && sid in st.users
    ensures var r := Disconnect(st, sid);
            var u := st.users[sid];
            && sid !in r.state.users
            && (forall id | id in r.state.rooms.entries :: sid !in r.state.rooms.entries[id].members)
            && (InRoom(u) ==>
                  var prev := u.currentRoom.value;
                  && |r.events| == 2
                  && r.events[0] == Event(Elems(st.rooms.entries[prev].members) - {sid}, UserLeft(sid, u.name))
                  && Elems(r.state.rooms.entries[prev].members) == Elems(st.rooms.entries[prev].members) - {sid})
            && (!InRoom(u) ==> |r.events| == 1 && r.state.rooms == st.rooms)
            && r.events[|r.events| - 1].recipients == st.users.Keys - {sid}
  {
    DepartEmptiesSocket(st, sid);
  }
}
