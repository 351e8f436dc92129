/**
 The agreement between the two directories that every handler keeps: a user's
 `currentRoom` names a room exactly when the socket is among that room's
 members. Because `currentRoom` holds one value, a socket is then in at most
 one room.
 */
module Consistency {
  import opened Wrappers
  import opened JsCollections
  import opened Directory
  import opened Hub

  predicate Consistent(st: State) {
    // Generated room ids are never empty, so a current room is always truthy.
    && "" !in st.rooms.entries
    && (forall s | s in st.users && st.users[s].currentRoom.Some? ::
          && st.users[s].currentRoom.value in st.rooms.entries
          && s in st.rooms.entries[st.users[s].currentRoom.value].members)
    && (forall id, s | id in st.rooms.entries && s in st.rooms.entries[id].members ::
          s in st.users && st.users[s].currentRoom == Some(id))
  }

  /** The socket ids Socket.IO hands out: never one that is still registered. */
  predicate FreshSocket(st: State, sid: SocketId) {
    sid !in st.users
  }

  /**
   The ids `create_room` builds (`room_<time>_<random>`): not empty and, as the
   model assumes and the server does not check, not already in the table.
   */
  predicate FreshRoom(st: State, roomId: RoomId) {
    roomId != "" && roomId !in st.rooms.entries
  }

  lemma BootIsConsistent()
    ensures Consistent(Boot)
  {
  }

  /** Under the invariant, membership and `currentRoom` say the same thing, so no socket is in two rooms. */
  lemma MembershipIsCurrentRoom(st: State, sid: SocketId, a: RoomId, b: RoomId)
    requires Consistent(st)
    requires a in st.rooms.entries && b in st.rooms.entries
    ensures sid in st.rooms.entries[a].members <==> sid in st.users && st.users[sid].currentRoom == Some(a)
    ensures sid in st.rooms.entries[a].members && sid in st.rooms.entries[b].members ==> a == b
  {
  }

  lemma RegisterKeepsConsistent(st: State, sid: SocketId, c: Claims)
    requires Consistent(st) && FreshSocket(st, sid)
    ensures Consistent(Register(st, sid, c).state)
  {
  }

  lemma CreateRoomKeepsConsistent(st: State, sid: SocketId, roomId: RoomId, name: string)
    requires Consistent(st) && FreshRoom(st, roomId)
    ensures Consistent(CreateRoom(st, sid, roomId, name).state)
  {
    AfterCreateKeepsConsistent(st, roomId, name);
  }

  lemma AfterCreateKeepsConsistent(st: State, roomId: RoomId, name: string)
    requires Consistent(st) && FreshRoom(st, roomId)
    ensures Consistent(AfterCreate(st, roomId, name))
  {
  }

  /** After `Depart`, the socket is in no room; every other socket's membership is as before. */
  lemma DepartEmptiesSocket(st: State, sid: SocketId)
    requires Consistent(st) && sid in st.users
    ensures var d := Depart(st.rooms, sid, st.users[sid]);
            && (forall id | id in d.rooms.entries :: sid !in d.rooms.entries[id].members)
            && (forall id, s | id in st.rooms.entries && s != sid ::
                  s in d.rooms.entries[id].members <==> s in st.rooms.entries[id].members)
  {
    var u := st.users[sid];
    var d := Depart(st.rooms, sid, u);
    forall id | id in d.rooms.entries
      ensures sid !in d.rooms.entries[id].members
    {
      if InRoom(u) && id == u.currentRoom.value {
        assert sid !in Elems(d.rooms.entries[id].members);
      } else {
        assert d.rooms.entries[id] == st.rooms.entries[id];
      }
    }
    forall id, s | id in st.rooms.entries && s != sid
      ensures s in d.rooms.entries[id].members <==> s in st.rooms.entries[id].members
    {
      if InRoom(u) && id == u.currentRoom.value {
        assert s in d.rooms.entries[id].members <==> s in Elems(d.rooms.entries[id].members);
        assert s in st.rooms.entries[id].members <==> s in Elems(st.rooms.entries[id].members);
      }
    }
  }

  lemma JoinRoomKeepsConsistent(st: State, sid: SocketId, roomId: RoomId)
    requires Consistent(st)
    ensures Consistent(JoinRoom(st, sid, roomId).state)
  {
    if sid in st.users && roomId in st.rooms.entries {
      AfterJoinKeepsConsistent(st, sid, roomId);
    }
  }

  lemma AfterJoinKeepsConsistent(st: State, sid: SocketId, roomId: RoomId)
    requires Consistent(st) && sid in st.users && roomId in st.rooms.entries
    ensures Consistent(AfterJoin(st, sid, roomId))
  {
    AfterJoinPlacesUsers(st, sid, roomId);
    AfterJoinRegistersMembers(st, sid, roomId);
  }

  /**
   A join changes membership for the joining socket only: it ends up in the
   target and nowhere else.
   */
  lemma AfterJoinMembership(st: State, sid: SocketId, roomId: RoomId)
    requires Consistent(st) && sid in st.users && roomId in st.rooms.entries
    ensures var st' := AfterJoin(st, sid, roomId);
            && (forall id, s | id in st.rooms.entries && s != sid ::
                  s in st'.rooms.entries[id].members <==> s in st.rooms.entries[id].members)
            && (forall id | id in st.rooms.entries :: sid in st'.rooms.entries[id].members <==> id == roomId)
  {
    var d := Depart(st.rooms, sid, st.users[sid]);
    DepartEmptiesSocket(st, sid);
    var st' := AfterJoin(st, sid, roomId);
    var target := d.rooms.entries[roomId];
    assert st'.rooms.entries[roomId].members == Add(target.members, sid);
    assert Elems(st'.rooms.entries[roomId].members) == Elems(target.members) + {sid};
    forall id, s | id in st.rooms.entries && s != sid
      ensures s in st'.rooms.entries[id].members <==> s in st.rooms.entries[id].members
    {
      if id == roomId {
        assert s in st'.rooms.entries[id].members <==> s in Elems(st'.rooms.entries[id].members);
      } else {
        assert st'.rooms.entries[id] == d.rooms.entries[id];
      }
    }
    forall id | id in st.rooms.entries
      ensures sid in st'.rooms.entries[id].members <==> id == roomId
    {
      if id == roomId {
        assert sid in Elems(st'.rooms.entries[id].members);
      } else {
        assert st'.rooms.entries[id] == d.rooms.entries[id];
      }
    }
  }

  /** After a join, every user's current room exists and has the user among its members. */
  lemma AfterJoinPlacesUsers(st: State, sid: SocketId, roomId: RoomId)
    requires Consistent(st) && sid in st.users && roomId in st.rooms.entries
    ensures var st' := AfterJoin(st, sid, roomId);
            forall s | s in st'.users && st'.users[s].currentRoom.Some? ::
              && st'.users[s].currentRoom.value in st'.rooms.entries
              && s in st'.rooms.entries[st'.users[s].currentRoom.value].members
  {
    AfterJoinMembership(st, sid, roomId);
  }

  /** After a join, every member of every room is registered and has that room as its current room. */
  lemma AfterJoinRegistersMembers(st: State, sid: SocketId, roomId: RoomId)
    requires Consistent(st) && sid in st.users && roomId in st.rooms.entries
    ensures var st' := AfterJoin(st, sid, roomId);
            forall id, s | id in st'.rooms.entries && s in st'.rooms.entries[id].members ::
              s in st'.users && st'.users[s].currentRoom == Some(id)
  {
    AfterJoinMembership(st, sid, roomId);
  }

  lemma SendMessageKeepsConsistent(st: State, sid: SocketId, msgId: string, text: string, timestamp: string)
    requires Consistent(st)
    ensures Consistent(SendMessage(st, sid, msgId, text, timestamp).state)
  {
  }

  lemma DisconnectKeepsConsistent(st: State, sid: SocketId)
    requires Consistent(st)
    ensures Consistent(Disconnect(st, sid).state)
  {
    AfterDisconnectKeepsConsistent(st, sid);
  }

  lemma AfterDisconnectKeepsConsistent(st: State, sid: SocketId)
    requires Consistent(st)
    ensures Consistent(AfterDisconnect(st, sid))
  {
    if sid in st.users {
      DepartEmptiesSocket(st, sid);
    }
  }
}
