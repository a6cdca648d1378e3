# WebRTC signaling server: room state machine

A model, in Dafny, of the live signaling server in `server/server.js`. Two
browser clients meet in a room and relay WebRTC offers, answers and ICE
candidates through it. The server's state is a room table, from room id to
the set of connections in the room, and a reverse index, from connection to
the room it last created or joined. Five handlers change that state or
decide who receives a message: create-room, join-room, leave-room, the relay
of offer/answer/candidate, and the connection's `close` hook. A per-message
dispatcher picks the handler and turns any exception into an `error`
envelope.

Node runs one handler at a time. So each handler is modelled as a pure
function from the state and its input to the next state plus an outbox,
the ordered list of `(connection, envelope)` sends it makes.

- `wrappers.dfy`: `Option`.
- `occupants.dfy`: a room's occupants. A JavaScript `Set` is duplicate-free
  and iterates in insertion order, and the code takes "the other" or "the
  remaining" client by spreading it into an array. So occupants are a
  duplicate-free `seq<Conn>`. `Add` leaves a present element alone, and
  `Delete` keeps the order of the rest.
- `envelopes.dfy`: decoded inbound frames, outbound envelopes and the
  message-type strings.
- `rooms.dfy`: the state and the create, join, leave and close handlers.
  It also holds the room-size invariant and the reverse-index lemmas.
- `router.dfy`: the relay, the dispatcher, and runs of the server over any
  sequence of messages and disconnects.
- `findings.dfy`: the relay bug listed under Findings, and a corrected relay.

The model follows the live code (server/server.js:245-351). The notes below
say what that code does where a reader might expect otherwise:

- A join does not check whether the requester is already in a room. The
  earlier, commented-out revision refused such a join
  (server/server.js:159-165); the live code has no such check and no
  "already in a room" error.
- create-room overwrites the requester's reverse-index entry
  (server/server.js:291). It does not remove the requester from the room
  it was already in.
- leave-room naming a live room the requester is not in still deletes the
  requester's reverse-index entry (server/server.js:334). It also tells
  that room's first occupant `peer-left` (server/server.js:337-338).
- The relay goes to the room's first-inserted occupant
  (server/server.js:347-348). That can be the sender (see Findings).
- A room is deleted only when it becomes empty (server/server.js:340). So
  after one of two occupants disconnects, the room stays in the table with
  the other occupant.

For these reasons the reverse index is not kept consistent in general. The
model proves when it does stay consistent: for clients that create or join
only while in no room, and leave only their own room.

## Model

| member | source | states |
|---|---|---|
| Occupants.Add | server/server.js:316 | `Set.add`: the connection is present afterwards. Nothing else is added. The old occupants stay in front, in order. Size grows by one exactly when the connection was absent. No duplicates appear. |
| Occupants.Delete | server/server.js:333 | `Set.delete`: the connection is gone and every other occupant stays. Size drops by one exactly when it was present. No duplicates appear. The remaining occupants keep their insertion order. |
| Occupants.IndexOf | server/server.js:333 | Position of the first occurrence: in range exactly when the element is present, it holds the element, and nothing earlier does. |
| Occupants.IndexOfOther | server/server.js:325 | Position of the first element other than the given connection: everything before it is that connection. |
| Occupants.FirstOther | server/server.js:325 | `[...room].filter(c => c !== ws)[0]`: undefined exactly when every occupant is `ws`. Otherwise it is the first occupant in insertion order that is not `ws`. |
| Occupants.FirstOtherOfPair | server/server.js:325 | In a room of two distinct connections, "the other" one of either is the remaining one. |
| Occupants.FirstOtherAfterAdd | server/server.js:316-325 | Adding the requester to a room does not change who the first other occupant is. |
| Occupants.DeleteAfterAdd | server/server.js:316-333 | Deleting a connection just added to a room it was not in gives back the original occupants. |
| Occupants.DeleteFromPair | server/server.js:333-337 | Deleting either member of a pair leaves exactly the other one. |
| Rooms.CreateRoom | server/server.js:288-297 | For a fresh id R: the table gains R holding only the requester, and every other room is unchanged. The requester's index entry becomes R, and every other entry is unchanged. The only send is `room-created` with R, to the requester. |
| Rooms.JoinRoom | server/server.js:299-327 | A missing or unknown room id gets exactly one "Room not found" error to the requester, with the state unchanged. A room of two or more gets exactly one "Room is full", with the state unchanged. Otherwise: the requester is added to the occupants if absent, its index entry names the room, and nothing else changes. The requester gets `room-joined` first. At most one `peer-joined` follows, sent exactly when someone else is in the room, and only to the first occupant other than the requester. |
| Rooms.LeaveRoom | server/server.js:329-341 | An unknown or missing room id does nothing. Otherwise the requester is deleted from that room and from the index, and nothing else changes. The room is removed exactly when it becomes empty. At most one `peer-left` is sent, to the first remaining occupant, never to the requester and never outside the room. |
| Rooms.Close | server/server.js:282-285 | The `close` hook is leave-room on the room in the requester's index entry when that entry exists and is truthy. Otherwise it does nothing. |
| Rooms.InitValid | server/server.js:257-258 | The empty tables satisfy the invariant, and their index is consistent. |
| Rooms.CreatePreservesValid | server/server.js:288-291 | create-room keeps every room at one or two duplicate-free occupants. |
| Rooms.JoinPreservesValid | server/server.js:309-317 | join-room keeps every room at one or two duplicate-free occupants. |
| Rooms.LeavePreservesValid | server/server.js:333-340 | leave-room keeps every room at one or two occupants, because a room that empties is deleted. |
| Rooms.ClosePreservesValid | server/server.js:282-285 | The close hook keeps the invariant. |
| Rooms.CloseEvictsConnection | server/server.js:282-341 | With a consistent index, a closed connection is in no room and has no index entry afterwards. At most one `peer-left` is sent, and not to the closed connection. |
| Rooms.CreateThenLeave | server/server.js:288-341 | Creating a room and leaving it at once restores the state exactly, with no sends on leaving. |
| Rooms.JoinThenLeave | server/server.js:299-341 | A second client that joins and then leaves restores the state exactly. The creator hears `peer-joined`, then `peer-left`. |
| Rooms.SecondJoinFillsRoom | server/server.js:309-317 | After a second client joins, any further join gets "Room is full" and changes nothing. |
| Rooms.CreateWhileInRoomBreaksConsistency | server/server.js:288-291 | create-room from a client already in a room leaves the reverse index disagreeing with the room table. |
| Rooms.LeaveOtherRoomBreaksConsistency | server/server.js:329-334 | leave-room naming another live room drops the requester's index entry while it is still in its own room. |
| Rooms.LeaveAsOutsiderUnchanged | server/server.js:329-338 | A client in no room that leaves a live room changes nothing, but the room's first occupant is still told `peer-left`. |
| Rooms.CreatePreservesConsistent | server/server.js:288-291 | create-room from a client in no room keeps the index consistent. |
| Rooms.JoinPreservesConsistent | server/server.js:299-317 | join-room from a client in no room keeps the index consistent. |
| Rooms.LeavePreservesConsistent | server/server.js:329-341 | leave-room keeps the index consistent when a client in a room names only its own room. |
| Rooms.LeaveOwnRoomConsistent | server/server.js:329-341 | Leaving one's own room keeps the index consistent. |
| Rooms.ClosePreservesConsistent | server/server.js:282-285 | The close hook keeps a consistent index consistent. |
| Router.Forward | server/server.js:343-351 | The relay never changes the state. It sends nothing when the room is absent. Otherwise it sends exactly one message, identical to the inbound envelope, to the room's first occupant. |
| Router.Handle | server/server.js:263-279 | A frame that fails to decode gets exactly one `error` carrying the exception's message. An unknown or missing type gets exactly one `error` reading "Unknown message type: " plus the type. In both cases the state is unchanged. Each known type goes to its handler. Every send goes to the sender or to an occupant of a room in the table. |
| Router.OnlyRoomMessagesChangeState | server/server.js:267-275 | Only create-room, join-room and leave-room can change the state. |
| Router.HandlePreservesValid | server/server.js:263-279 | Handling any message keeps the room-size invariant. |
| Router.ApplyPreservesValid | server/server.js:263-285 | Any message or disconnect keeps the invariant. |
| Router.RunPreservesValid | server/server.js:260-285 | Any sequence of messages and disconnects keeps the invariant. |
| Router.ReachableRoomsHoldOneOrTwo | server/server.js:257-351 | From an empty server, after any sequence of messages and disconnects, every room in the table has one or two occupants. |
| Router.ApplyPreservesConsistent | server/server.js:263-285 | A message or disconnect from a disciplined client keeps the index consistent. |
| Router.RunPreservesConsistent | server/server.js:258-341 | Along any run whose clients create or join only while in no room, and leave only their own room, the index and the table agree after every event. |
| Findings.CreateThenJoin | server/server.js:263-327 | Through the dispatcher: A's create-room answers A alone with `room-created`. B's join then answers B with `room-joined`, tells A `peer-joined`, and leaves A and B, in that order, in the room. |
| Findings.OfferReturnsToCreator | server/server.js:263-351 | A creates, B joins, A offers: A gets its own offer back and B gets nothing. When B then disconnects, A gets `peer-left` and the room remains with A in it. |
| Findings.ForwardToPeer | server/server.js:343-351 | Corrected relay: the state is unchanged, and at most one send is made. It is the inbound envelope, sent to an occupant of the named room other than the sender. It is sent exactly when such an occupant exists. |
| Findings.PeerGetsRelay | server/server.js:347-350 | In a full room the corrected relay reaches exactly the other occupant, whichever of the two sent. |
| Findings.OfferReachesPeer | server/server.js:343-351 | With the corrected relay, A's offer after B joins reaches B. |

## Left out

- `client/script.js`: browser wiring for the camera, `RTCPeerConnection` and the UI. It has no state that the server depends on.
- The Express static server, the `ws` server set-up and `app.listen` (server/server.js:245-256): I/O plumbing.
- `uuidv4()`: a handler that needs a new id takes it as a parameter. The parameter must not name a live room and must be non-empty, as every UUID string is. Id uniqueness across many calls is a property of the generator and is not modelled.
- JSON text: a frame arrives already decoded. A value that is null or does not parse becomes `Malformed`, carrying the exception's message. The server reads `type`, `roomId` and `sender`. The `sender` field is decoded JSON, so it never equals a connection, and the relay's test against it excludes nobody. Every field other than `type` and `roomId`, `sender` included, is kept as opaque text. A non-string `roomId` matches no room and is modelled as missing.
- Console logging: it has no effect on state or sends.
- `ws.send` on a closed or not-yet-open socket: a transport concern. An exception it might throw inside the `try` block is not modelled.
- The `WeakMap` reclaiming entries of collected connections: the model keeps them. No handler can observe the difference.
- The commented-out earlier revision (server/server.js:1-243): its heartbeat, room limit and "already in a room" check are not live code.
- Concurrency: Node's event loop runs one handler at a time, so the model is sequential.

## Findings

| source | as written | input that shows it | evidently intended | confidence | as-written member | corrected member |
|---|---|---|---|---|---|---|
| server/server.js:347-350 | The recipient is the first occupant `!==` `data.sender`. That field is decoded JSON and never a connection, so the room's first-inserted occupant always receives the message. | A sends `create-room`, B sends `join-room` for the new id, A sends `offer` for it. | Relay to the occupant other than the connection the message came in on. | high; not executed | Findings.OfferReturnsToCreator | Findings.ForwardToPeer |

The dispatcher `Router.Handle` keeps the relay as written, because it models
the live server. The corrected relay and its properties are in
`findings.dfy`.
