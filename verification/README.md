# Room hub of the real-time chat server

A Dafny model of the in-memory room hub in `backend/server.js`. The hub keeps two directories:

- `chatRooms` maps a room id to the room's name, its message history and the set of sockets in it.
- `users` maps a socket id to the identity bound to that socket and the room it is currently in.

Six pieces of the hub read or change them:

- the `connection` handler
- the `create_room`, `join_room`, `send_message` and `disconnect` handlers
- the room-list snapshot that `broadcastRoomList` and `GET /api/rooms` both build

The model also covers the input check of `POST /api/auth/login`, including the default avatar URL built with `encodeURIComponent`.

Node runs each handler to completion before it starts the next. So each handler is a pure function from a state to a `Step`: the new state plus the events the handler emitted, in emit order. Each event records its set of recipients and its payload.

The files:

- `collections.dfy`: JavaScript `Set` and `Map` as insertion-ordered collections, because the room list and member lists follow insertion order. Also the `Option` type.
- `directory.dfy`: the two directories, the event payloads and the room-list snapshot.
- `hub.dfy`: the five handlers. Each state change is also a separate `After...` function.
- `consistency.dfy`: the invariant relating `currentRoom` to room membership, and its preservation by every handler.
- `delivery.dfy`: who receives each event, the order of events, and what each handler does to membership and history.
- `trace.dfy`: runs of handlers; invariance and append-only history over a whole run; a two-member room scenario.
- `uri.dfy`: `encodeURIComponent` as ECMAScript 2024 section 19.2.6.5 defines it, on strings of Unicode scalar values, and the decoder it is checked against.
- `login.dfy`: the login input check and the token table it writes.

Under the invariant `Consistency.Consistent`:

- A user's `currentRoom` names a room exactly when the socket is among that room's members.
- Since `currentRoom` holds one value, no socket is in two rooms.

Every handler preserves the invariant, provided two assumptions hold:

- New socket ids are not already registered.
- Generated room ids are non-empty and not in the table.

The server does not check the second assumption. It is a precondition of the lemmas only; `create_room` itself is modelled with `Map.set`'s overwrite.

## Model

| member | source | states |
|---|---|---|
| JsCollections.Add | backend/server.js:217 | `Set.add` adds exactly the new element, keeps the existing order, and appends it only when absent |
| JsCollections.Delete | backend/server.js:207 | `Set.delete` removes exactly that element; the others keep their relative order (the result is the sequence with that one position cut out); deleting an absent element changes nothing |
| JsCollections.SizeIsLength | backend/server.js:308 | `Set.size` is the number of distinct members |
| JsCollections.Put | backend/server.js:170 | `Map.set` binds the key to the value and leaves every other key alone; a new key goes last in iteration order and an existing key keeps its place |
| Directory.Present | backend/server.js:309-312 | the `filter(Boolean)` of a member list keeps exactly the members with a user entry, as a subsequence of the members, so in their order; when every member has one, nothing is dropped |
| Directory.RoomList | backend/server.js:304-316 | one snapshot entry per room, in `chatRooms` insertion order, each naming a room of the table by its id and name, and a `userCount` equal to the size of its member set |
| Hub.AfterRegister | backend/server.js:148-155 | registering adds exactly one user entry, carrying the verified claims and no current room; rooms and other users are untouched |
| Hub.Register | backend/server.js:157-162 | the state is the registered one, and `login_success` goes to the new socket only |
| Hub.AfterCreate | backend/server.js:168-174 | `create_room` binds the id to a room with the given name, no history and no members; users and the other rooms are untouched; a fresh id goes last in room order |
| Hub.CreateRoom | backend/server.js:167-185 | `room_created` goes to the creator alone, then `rooms_updated` with the new snapshot goes to every connected socket |
| Hub.Depart | backend/server.js:203-213 | leaving a room that exists cuts only this socket out of its members, the rest keeping their order, and the remaining members get `user_left`; every other room is unchanged; without a current room that exists nothing changes and nothing is sent; names and histories never change |
| Hub.AfterJoin | backend/server.js:203-218 | after a join the socket is a member of the target and its `currentRoom` is the target; no room's name or history changes; every room other than the previous room and the target is unchanged; no other user changes (where the socket lands in the target's member order is `Delivery.JoinAppendsMember`) |
| Hub.JoinRoom | backend/server.js:188-246 | without a user entry the caller alone gets "User not authenticated"; for an unknown room the caller alone gets "Room not found"; both leave the state unchanged; otherwise the state is the joined one |
| Hub.AfterSend | backend/server.js:263-273 | the current room's history grows by exactly the new message at the end; its name and members, every other room, and every user are unchanged |
| Hub.SendMessage | backend/server.js:249-276 | with no user entry or a falsy `currentRoom`, the caller alone gets "User not in a room"; with a vanished room, the caller alone gets "Room not found"; both change nothing; otherwise one `new_message` carrying the sender's socket id, name, photo and the text goes to every member of the room |
| Hub.AfterDisconnect | backend/server.js:283-296 | the user entry is gone and every room's name and history is unchanged; the room the socket was in no longer has it, the other members keeping their order; every other room is unchanged; an unknown socket leaves the rooms untouched |
| Hub.Disconnect | backend/server.js:282-300 | one or two events, the last always `rooms_updated` to every socket still connected; an unknown socket causes only that one |
| Consistency.BootIsConsistent | backend/server.js:26-27 | the empty directories satisfy the invariant |
| Consistency.MembershipIsCurrentRoom | backend/server.js:203-218 | under the invariant a socket is in room R exactly when its `currentRoom` is R, so it is in at most one room |
| Consistency.RegisterKeepsConsistent | backend/server.js:148-155 | registering a fresh socket preserves the invariant |
| Consistency.CreateRoomKeepsConsistent | backend/server.js:167-185 | `create_room` with a fresh id preserves the invariant |
| Consistency.AfterCreateKeepsConsistent | backend/server.js:170-174 | the same, for the state change alone |
| Consistency.DepartEmptiesSocket | backend/server.js:203-213 | after leaving, the socket is in no room, and every other socket's membership is as before |
| Consistency.JoinRoomKeepsConsistent | backend/server.js:188-218 | `join_room` preserves the invariant, whether it fails or succeeds |
| Consistency.AfterJoinKeepsConsistent | backend/server.js:203-218 | the same, for the state change of a successful join |
| Consistency.AfterJoinMembership | backend/server.js:203-218 | under the invariant, a join changes membership for the joining socket only, which ends up in the target and in no other room |
| Consistency.SendMessageKeepsConsistent | backend/server.js:249-273 | `send_message` preserves the invariant |
| Consistency.DisconnectKeepsConsistent | backend/server.js:282-300 | `disconnect` preserves the invariant |
| Consistency.AfterDisconnectKeepsConsistent | backend/server.js:283-296 | the same, for the state change alone |
| Delivery.MembersArePresent | backend/server.js:309-312 | under the invariant, `filter(Boolean)` drops no member |
| Delivery.RoomListCoversRooms | backend/server.js:305-307 | a room id appears in the room list exactly when the room exists |
| Delivery.SummaryListsEveryMember | backend/server.js:305-313 | under the invariant, a room's entry lists each member's name and photo once, in member order, so its length is `userCount` |
| Delivery.RoomListEntryBadges | backend/server.js:304-316 | under the invariant, the `i`-th snapshot entry lists, at each position `j`, the name and photo of the `j`-th member of its room, and has exactly `userCount` of them |
| Delivery.RoomListIsComplete | backend/server.js:115-123 | under the invariant, every entry of the snapshot holds each member's name and photo badge in member order, and `users.length == userCount`; `GET /api/rooms` builds the same snapshot |
| Delivery.JoinRoomMovesSocket | backend/server.js:203-218 | after a successful join the socket is in the target and in no other room, and its previous room lost exactly this socket |
| Delivery.JoinLeavesPreviousInOrder | backend/server.js:203-207 | the room a successful join leaves no longer has the socket, and its remaining members keep their order |
| Delivery.JoinAppendsMember | backend/server.js:207-217 | after a join the target's members are its old members without the socket, in their order, followed by the socket, so a rejoin moves the socket to the end; a socket joining a room it is not in goes last after the unchanged old members |
| Delivery.JoinRoomNoticeOrder | backend/server.js:203-243 | events in order: `user_left` to the previous room's other members, only when there was a current room; the `room_joined` reply to the joiner alone; `user_joined` to the target's other members; `rooms_updated` to everyone |
| Delivery.DepartedNoticeCount | backend/server.js:203-213 | under the invariant, leaving sends one `user_left` exactly when the user had a room |
| Delivery.JoinRoomReply | backend/server.js:221-233 | `room_joined` carries the target's id, name, full history and the member list after the join |
| Delivery.JoinedMemberList | backend/server.js:225-232 | that member list has one entry per member, in member order, and the joiner's entry is among them |
| Delivery.MemberListNamesEveryMember | backend/server.js:225-232 | when every member has a user entry, the list pairs each member's socket id with its name and photo, in member order |
| Delivery.SendMessageDelivers | backend/server.js:263-276 | under the invariant, a sender with a room appends one message at the end; other rooms and users are unchanged; the one `new_message` reaches every member, the sender included, with as many recipients as the room has members |
| Delivery.DisconnectNotifies | backend/server.js:283-297 | afterwards the socket has no user entry and is in no room; with a room, the remaining members get `user_left` and the room lost exactly this socket; without one, the rooms are unchanged and only `rooms_updated` goes out, to the remaining sockets |
| Trace.ApplyKeepsConsistent | backend/server.js:144-300 | any handler step with fresh ids preserves the invariant |
| Trace.RunKeepsConsistent | backend/server.js:144-300 | any sequence of steps with fresh ids preserves the invariant |
| Trace.ApplyExtendsHistory | backend/server.js:170-174 | no step deletes a room, reorders the room table or rewrites history; a step only appends |
| Trace.RunExtendsHistory | backend/server.js:273 | over a whole run, every room survives and each history is a prefix of its later history |
| Scenario.CreatedIsReady | backend/server.js:148-174 | after two registrations and a `create_room`, the room is empty and neither socket has a room |
| Scenario.FirstJoinedIsAlone | backend/server.js:215-218 | the first joiner is the room's only member |
| Scenario.BothJoinedShareTheRoom | backend/server.js:215-218 | after the second join the members are the two sockets, in join order |
| Scenario.SendInPair | backend/server.js:263-276 | in a room of exactly two sockets, a message reaches both and goes to the end of the history |
| Scenario.TwoMemberRoomScenario | backend/server.js:144-279 | register two sockets, create a room, join both and send: both receive the message, which is the room's whole history |
| UriComponent.Encode | backend/server.js:82 | `encodeURIComponent` output uses only unreserved characters and `%`, is no shorter than its input, and is canonical: every `%` starts an escape with two upper-case hex digits whose octet is not an unreserved character, so letters, digits and `- _ . ! ~ * ' ( )` are never escaped |
| UriComponent.EscapeCanonical | backend/server.js:82 | the escape of octets that are not unreserved characters is canonical |
| UriComponent.EscapeUsesSafeCharacters | backend/server.js:82 | each byte becomes three characters: `%` at every position divisible by three and a hex digit at every other position, so an escape holds `%` and hex digits only |
| UriComponent.EscapedCharRoundTrip | backend/server.js:82 | the UTF-8 escape of a character decodes back to that character and consumes exactly its own escape |
| UriComponent.DecodeEncode | backend/server.js:82 | `decodeURIComponent(encodeURIComponent(s)) == s` for every string |
| UriComponent.EncodeIsInjective | backend/server.js:82 | two different names never encode to the same text |
| UriComponent.EscapedPrefix | backend/server.js:82 | in a canonical string, the escapes the decoder reads as one character are exactly that character's UTF-8 escape, and the character is not unreserved |
| UriComponent.CanonicalIsEncode | backend/server.js:82 | a canonical string that decodes to `s` is `encodeURIComponent(s)`, so no other encoder meets `Encode`'s contract and the round trip |
| UriComponent.EncodeIsCanonicalDecoding | backend/server.js:82 | a string is `encodeURIComponent(s)` exactly when it is canonical and decodes to `s` |
| Login.HandleLogin | backend/server.js:67-96 | a missing or empty name or email is refused with status 400 and "Name and email are required", and the token table is untouched; otherwise the profile carries the given id, name and email; a truthy photo is kept, and when no photo is sent the generated avatar URL names the user and its name part is canonical, which together fix it as `encodeURIComponent(name)`; the token table gains exactly the new token |
| Login.AvatarNameRoundTrip | backend/server.js:82 | the default avatar URL reads back to the name it was built from |
| Login.AvatarNamePart | backend/server.js:82 | the default avatar URL is the fixed prefix, `encodeURIComponent(name)` and the fixed suffix |
| Login.AvatarIsDetermined | backend/server.js:82 | a URL with the avatar prefix and suffix, a canonical query value and a read-back name is the default avatar of that name |

## Left out

- JWT signing and verification (backend/server.js:31-59, 128-142) is a library call. The verified claims are an input to `Register`, and the issued token is an input to `HandleLogin`. The `/api/auth/verify` and `/api/auth/profile` endpoints only echo the claims and are not modelled.
- Ids and timestamps come from `Date.now`, `Math.random` and `toISOString` (backend/server.js:75, 168, 264, 269). They are parameters. Freshness of room and socket ids is a precondition of the invariant lemmas only, because the server never checks it. Uniqueness of message ids is not claimed.
- Express, Socket.IO transport, CORS, `server.listen`, `/api/health` and logging are I/O.
  - Socket.IO room membership (`socket.join`, `socket.leave`) is taken to be the room's member set.
  - `socket.to(room)` is that set minus the acting socket.
  - `io.emit` reaches the registered sockets, the keys of `users`.
  - The `verifyToken` guard of `GET /api/rooms` is not modelled; its body is `Directory.RoomList`.
- Hub.CreateRoom, Hub.SendMessage: the payload is taken to be an object whose `name` (backend/server.js:171) or `text` (backend/server.js:265) is a string. Three cases are not modelled:
  - an object without that field, which the server stores as `undefined`;
  - a field of another JSON type;
  - a missing or `null` payload. Here reading `roomData.name` or `messageData.text` throws a `TypeError` inside the Socket.IO event dispatch, and nothing catches it.
- Login.HandleLogin: each body field is a string or absent. Other JSON types (a number as a name, say) are not modelled.
- UriComponent.Encode: Dafny strings hold Unicode scalar values. The `URIError` that `encodeURIComponent` throws on a lone surrogate has no counterpart.
- `backend/encryption.js` and `frontend/src/utils/encryption.js` are RSA wrappers that the server never imports.
- The React components, `authService.js` and `vite.config.js` are client code and build configuration.
