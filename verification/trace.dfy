/**
 Runs of the hub: Node dispatches one socket event at a time, so a run is a
 sequence of handler steps. The environment supplies fresh socket ids and room
 ids; under those two assumptions the invariant holds after every step and
 message history only ever grows.
 */
module Trace {
  import opened Wrappers
  import opened JsCollections
  import opened Directory
  import opened Hub
  import opened Consistency

  /** One socket event, with the values the server would draw from the clock and the random generator. */
  datatype Command =
    | Connect(sid: SocketId, claims: Claims)
    | Create(sid: SocketId, roomId: RoomId, name: string)
    | Join(sid: SocketId, roomId: RoomId)
    | Send(sid: SocketId, msgId: string, text: string, timestamp: string)
    | Close(sid: SocketId)

  function Apply(st: State, cmd: Command): Step {
    match cmd
    case Connect(sid, c) => Register(st, sid, c)
    case Create(sid, roomId, name) => CreateRoom(st, sid, roomId, name)
    case Join(sid, roomId) => JoinRoom(st, sid, roomId)
    case Send(sid, msgId, text, timestamp) => SendMessage(st, sid, msgId, text, timestamp)
    case Close(sid) => Disconnect(st, sid)
  }

  /** What the environment guarantees about the ids it hands to a step. */
  predicate Admissible(st: State, cmd: Command) {
    match cmd
    case Connect(sid, _) => FreshSocket(st, sid)
    case Create(_, roomId, _) => FreshRoom(st, roomId)
    case _ => true
  }

  /** Every step of the run gets fresh ids, judged against the state it runs in. */
  predicate Admitted(st: State, cmds: seq<Command>)
    decreases |cmds|
  {
    cmds == [] || (Admissible(st, cmds[0]) && Admitted(Apply(st, cmds[0]).state, cmds[1..]))
  }

  function Run(st: State, cmds: seq<Command>): State
    decreases |cmds|
  {
    if cmds == [] then st else Run(Apply(st, cmds[0]).state, cmds[1..])
  }

  lemma ApplyKeepsConsistent(st: State, cmd: Command)
    requires Consistent(st) && Admissible(st, cmd)
    ensures Consistent(Apply(st, cmd).state)
  {
    match cmd
    case Connect(sid, c) => RegisterKeepsConsistent(st, sid, c);
    case Create(sid, roomId, name) => CreateRoomKeepsConsistent(st, sid, roomId, name);
    case Join(sid, roomId) => JoinRoomKeepsConsistent(st, sid, roomId);
    case Send(sid, msgId, text, timestamp) => SendMessageKeepsConsistent(st, sid, msgId, text, timestamp);
    case Close(sid) => DisconnectKeepsConsistent(st, sid);
  }

  /** From any consistent state, a run whose every step gets fresh ids leaves the directories consistent. */
  lemma {:induction false} RunKeepsConsistent(st: State, cmds: seq<Command>)
    requires Consistent(st) && Admitted(st, cmds)
    ensures Consistent(Run(st, cmds))
    decreases |cmds|
  {
    if cmds != [] {
      ApplyKeepsConsistent(st, cmds[0]);
      RunKeepsConsistent(Apply(st, cmds[0]).state, cmds[1..]);
    }
  }

  /**
   `later` keeps every room of `earlier`, in the same order, and each room's
   history in `earlier` is a prefix of its history in `later`.
   */
  ghost predicate Extends(earlier: State, later: State) {
    && |earlier.rooms.keys| <= |later.rooms.keys|
    && later.rooms.keys[..|earlier.rooms.keys|] == earlier.rooms.keys
    && earlier.rooms.entries.Keys <= later.rooms.entries.Keys
    && forall id | id in earlier.rooms.entries ::
         earlier.rooms.entries[id].messages <= later.rooms.entries[id].messages
  }

  lemma ExtendsIsTransitive(a: State, b: State, c: State)
    requires Extends(a, b) && Extends(b, c)
    ensures Extends(a, c)
  {
    assert c.rooms.keys[..|a.rooms.keys|] == c.rooms.keys[..|b.rooms.keys|][..|a.rooms.keys|];
  }

  /** No step deletes a room or rewrites a message; `send_message` is the only one that appends. */
  lemma ApplyExtendsHistory(st: State, cmd: Command)
    requires Admissible(st, cmd)
    ensures Extends(st, Apply(st, cmd).state)
  {
    var st' := Apply(st, cmd).state;
    match cmd
    case Connect(sid, c) =>
    case Create(sid, roomId, name) =>
      assert st'.rooms.keys == st.rooms.keys + [roomId];
    case Join(sid, roomId) =>
    case Send(sid, msgId, text, timestamp) =>
    case Close(sid) =>
  }

  /** Over a whole run with fresh room ids, rooms are never deleted and histories only grow at the end. */
  lemma {:induction false} RunExtendsHistory(st: State, cmds: seq<Command>)
    requires Admitted(st, cmds)
    ensures Extends(st, Run(st, cmds))
    decreases |cmds|
  {
    if cmds == [] {
      assert st.rooms.keys[..|st.rooms.keys|] == st.rooms.keys;
    } else {
      var next := Apply(st, cmds[0]).state;
      ApplyExtendsHistory(st, cmds[0]);
      RunExtendsHistory(next, cmds[1..]);
      ExtendsIsTransitive(st, next, Run(st, cmds));
    }
  }
}

/**
 The scenario the hub is built for: a room "general" is created, two
 connections join it, the first one says "hi", and both receive the message,
 which is the room's whole history.
 */
module Scenario {
  import opened Wrappers
  import opened JsCollections
  import opened Directory
  import opened Hub
  import opened Consistency
  import opened Delivery

  /**
   Two sockets `a` and `b` and a room id `g` the server could have generated.
   `Register`, `CreateRoom` and a successful `JoinRoom` leave exactly the
   `After...` states below, so these are the states the handlers step through.
   */
  predicate DistinctSetup(a: SocketId, b: SocketId, g: RoomId) {
    a != b && g != ""
  }

  /** Both connections registered and the room created, nobody in it yet. */
  function Created(a: SocketId, alice: Claims, b: SocketId, bob: Claims, g: RoomId, name: string): State {
    AfterCreate(AfterRegister(AfterRegister(Boot, a, alice), b, bob), g, name)
  }

  /** The first connection has joined. */
  function FirstJoined(a: SocketId, alice: Claims, b: SocketId, bob: Claims, g: RoomId, name: string): State {
    AfterJoin(Created(a, alice, b, bob, g, name), a, g)
  }

  /** Both connections have joined. */
  function BothJoined(a: SocketId, alice: Claims, b: SocketId, bob: Claims, g: RoomId, name: string): State {
    AfterJoin(FirstJoined(a, alice, b, bob, g, name), b, g)
  }

  lemma CreatedIsReady(a: SocketId, alice: Claims, b: SocketId, bob: Claims, g: RoomId, name: string)
    requires DistinctSetup(a, b, g)
    ensures var st := Created(a, alice, b, bob, g, name);
            && Consistent(st)
            && g in st.rooms.entries && st.rooms.entries[g].messages == [] && st.rooms.entries[g].members == []
            && a in st.users && st.users[a].currentRoom == None
            && b in st.users && st.users[b].currentRoom == None
  {
    var st1 := AfterRegister(Boot, a, alice);
    var st2 := AfterRegister(st1, b, bob);
    BootIsConsistent();
    RegisterKeepsConsistent(Boot, a, alice);
    RegisterKeepsConsistent(st1, b, bob);
    AfterCreateKeepsConsistent(st2, g, name);
  }

  lemma FirstJoinedIsAlone(a: SocketId, alice: Claims, b: SocketId, bob: Claims, g: RoomId, name: string)
    requires DistinctSetup(a, b, g)
    ensures var st := FirstJoined(a, alice, b, bob, g, name);
            && Consistent(st)
            && g in st.rooms.entries && st.rooms.entries[g].messages == [] && st.rooms.entries[g].members == [a]
            && a in st.users && st.users[a].currentRoom == Some(g)
            && b in st.users && st.users[b].currentRoom == None
  {
    var st := Created(a, alice, b, bob, g, name);
    CreatedIsReady(a, alice, b, bob, g, name);
    AfterJoinKeepsConsistent(st, a, g);
    JoinAppendsMember(st, a, g);
  }

  lemma BothJoinedShareTheRoom(a: SocketId, alice: Claims, b: SocketId, bob: Claims, g: RoomId, name: string)
    requires DistinctSetup(a, b, g)
    ensures var st := BothJoined(a, alice, b, bob, g, name);
            && Consistent(st)
            && g in st.rooms.entries && st.rooms.entries[g].messages == [] && st.rooms.entries[g].members == [a, b]
            && a in st.users && st.users[a] == User(alice.userId, alice.name, alice.email, alice.photo, Some(g))
  {
    var st := FirstJoined(a, alice, b, bob, g, name);
    FirstJoinedIsAlone(a, alice, b, bob, g, name);
    AfterJoinKeepsConsistent(st, b, g);
    JoinAppendsMember(st, b, g);
  }

  /** A message sent in a consistent room of exactly `a` and `b` reaches both and ends its history. */
  lemma SendInPair(st: State, a: SocketId, b: SocketId, g: RoomId, msgId: string, text: string, time: string)
    requires Consistent(st) && a in st.users && st.users[a].currentRoom == Some(g) && g != ""
    requires g in st.rooms.entries && st.rooms.entries[g].members == [a, b]
    ensures var r := SendMessage(st, a, msgId, text, time);
            var m := Message(msgId, text, a, st.users[a].name, st.users[a].photo, time);
            && r.events == [Event({a, b}, NewMessage(m))]
            && r.state.rooms.entries[g].messages == st.rooms.entries[g].messages + [m]
  {
    SendMessageDelivers(st, a, msgId, text, time);
    assert Elems(st.rooms.entries[g].members) == {a, b};
  }

  /**
   With the room holding both connections, a message from the first reaches
   both and becomes the room's whole history.
   */
  lemma TwoMemberRoomScenario(a: SocketId, alice: Claims, b: SocketId, bob: Claims,
                              g: RoomId, name: string, msgId: string, text: string, time: string)
    requires DistinctSetup(a, b, g)
    ensures var r := SendMessage(BothJoined(a, alice, b, bob, g, name), a, msgId, text, time);
            var m := Message(msgId, text, a, alice.name, alice.photo, time);
            && r.events == [Event({a, b}, NewMessage(m))]
            && r.state.rooms.entries[g].messages == [m]
  {
    BothJoinedShareTheRoom(a, alice, b, bob, g, name);
    SendInPair(BothJoined(a, alice, b, bob, g, name), a, b, g, msgId, text, time);
  }
}
