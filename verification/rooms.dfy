/** The room manager: the room table, the reverse index from connection to
    room, and the handlers that change them. Node runs one handler at a
    time, so each handler is a pure function from the state and its inputs
    to the next state and the list of messages it sends, in order. */
module Rooms {
  import opened Wrappers
  import opened Occupants
  import opened Envelopes

  /** `rooms` maps a room id to its occupants; `clientRooms` (a `WeakMap` in
      the server) maps a connection to the room it last created or joined. */
  datatype Server = Server(rooms: map<RoomId, seq<Conn>>, clientRooms: map<Conn, RoomId>)

  /** The outcome of one handler: the next state and the sends it made. */
  datatype Step = Step(next: Server, outbox: seq<Send>)

  /** The state when the process starts. */
  const Init: Server := Server(map[], map[])

  /** The room-size invariant: every room in the table has one or two
      occupants. */
  predicate RoomSizesOk(s: Server) {
    forall id :: id in s.rooms ==> 1 <= |s.rooms[id]| <= 2
  }

  /** The invariant the handlers keep: room sizes, occupants that form a set,
      and room ids that are non-empty strings (as every `uuidv4()` is). */
  predicate Valid(s: Server) {
    && RoomSizesOk(s)
    && (forall id :: id in s.rooms ==> NoDup(s.rooms[id]) && id != "")
    && (forall c :: c in s.clientRooms ==> s.clientRooms[c] != "")
  }

  /** The reverse index agrees with the room table in both directions. The
      handlers do NOT keep this in general; see the lemmas at the end. */
  predicate Consistent(s: Server) {
    && (forall c :: c in s.clientRooms ==>
          s.clientRooms[c] in s.rooms && c in s.rooms[s.clientRooms[c]])
    && (forall id, c :: id in s.rooms && c in s.rooms[id] ==>
          c in s.clientRooms && s.clientRooms[c] == id)
  }

  /** What `uuidv4()` guarantees of a new room id: it is not a live room, and
      it is a non-empty string. */
  predicate FreshId(s: Server, id: RoomId) {
    id !in s.rooms && id != ""
  }

  /** A join that passes both checks of `handleJoinRoom`. */
  predicate CanJoin(s: Server, roomId: Option<RoomId>) {
    roomId.Some? && roomId.value in s.rooms && |s.rooms[roomId.value]| < 2
  }

  /** `handleCreateRoom`: a new room holding only the requester. The
      requester's reverse-index entry is overwritten; it is not removed from
      a room it was already in. */
  function CreateRoom(s: Server, ws: Conn, id: RoomId): (r: Step)
    requires FreshId(s, id)
    ensures r.next.rooms.Keys == s.rooms.Keys + {id}
    ensures r.next.rooms[id] == [ws]
    ensures forall x :: x in s.rooms ==> r.next.rooms[x] == s.rooms[x]
    ensures r.next.clientRooms.Keys == s.clientRooms.Keys + {ws}
    ensures r.next.clientRooms[ws] == id
    ensures forall c :: c in s.clientRooms && c != ws ==> r.next.clientRooms[c] == s.clientRooms[c]
    ensures r.outbox == [Send(ws, RoomCreated(id))]
  {
    Step(Server(s.rooms[id := [ws]], s.clientRooms[ws := id]), [Send(ws, RoomCreated(id))])
  }

  /** `handleJoinRoom`. There is no check that the requester is already in a
      room, and a requester already in this room is not added twice. */
  function JoinRoom(s: Server, ws: Conn, roomId: Option<RoomId>): (r: Step)
    ensures roomId.None? || roomId.value !in s.rooms ==>
      r == Step(s, [Send(ws, Error(RoomNotFound))])
    ensures roomId.Some? && roomId.value in s.rooms && |s.rooms[roomId.value]| >= 2 ==>
      r == Step(s, [Send(ws, Error(RoomIsFull))])
    ensures CanJoin(s, roomId) ==>
      var id := roomId.value;
      var occ := s.rooms[id];
      && r.next.rooms.Keys == s.rooms.Keys
      && r.next.rooms[id] == Add(occ, ws)
      && (forall x :: x in s.rooms && x != id ==> r.next.rooms[x] == s.rooms[x])
      && r.next.clientRooms.Keys == s.clientRooms.Keys + {ws}
      && r.next.clientRooms[ws] == id
      && (forall c :: c in s.clientRooms && c != ws ==> r.next.clientRooms[c] == s.clientRooms[c])
      && 1 <= |r.outbox| <= 2
      && r.outbox[0] == Send(ws, RoomJoined(id))
      && (|r.outbox| == 2 <==> exists c :: c in occ && c != ws)
      && (|r.outbox| == 2 ==>
            r.outbox[1].msg == PeerJoined && Some(r.outbox[1].to) == FirstOther(occ, ws))
  {
    if roomId.None? || roomId.value !in s.rooms then
      Step(s, [Send(ws, Error(RoomNotFound))])
    else
      var id := roomId.value;
      var occ := s.rooms[id];
      if |occ| >= 2 then
        Step(s, [Send(ws, Error(RoomIsFull))])
      else
        var joined := Add(occ, ws);
        FirstOtherAfterAdd(occ, ws);
        var notify := match FirstOther(joined, ws)
          case Some(other) => [Send(other, PeerJoined)]
          case None => [];
        Step(Server(s.rooms[id := joined], s.clientRooms[ws := id]),
             [Send(ws, RoomJoined(id))] + notify)
  }

  /** `handleLeaveRoom`. For a room id that is in the table, the requester's
      reverse-index entry is deleted and the room's first remaining occupant
      is told `peer-left`, whether or not the requester was in that room. */
  function LeaveRoom(s: Server, ws: Conn, roomId: Option<RoomId>): (r: Step)
    ensures roomId.None? || roomId.value !in s.rooms ==> r == Step(s, [])
    ensures roomId.Some? && roomId.value in s.rooms ==>
      var id := roomId.value;
      var rest := Delete(s.rooms[id], ws);
      && (id in r.next.rooms <==> |rest| > 0)
      && (id in r.next.rooms ==> r.next.rooms[id] == rest)
      && (forall x :: x != id ==> (x in r.next.rooms <==> x in s.rooms))
      && (forall x :: x in s.rooms && x != id ==> r.next.rooms[x] == s.rooms[x])
      && r.next.clientRooms.Keys == s.clientRooms.Keys - {ws}
      && (forall c :: c in r.next.clientRooms ==> r.next.clientRooms[c] == s.clientRooms[c])
      && |r.outbox| <= 1
      && (|r.outbox| == 1 <==> |rest| > 0)
      && (|r.outbox| == 1 ==> r.outbox[0] == Send(rest[0], PeerLeft))
    ensures roomId.Some? && roomId.value in s.rooms && NoDup(s.rooms[roomId.value]) ==>
      forall k :: 0 <= k < |r.outbox| ==>
        r.outbox[k].to != ws && r.outbox[k].to in s.rooms[roomId.value]
  {
    if roomId.None? || roomId.value !in s.rooms then
      Step(s, [])
    else
      var id := roomId.value;
      var rest := Delete(s.rooms[id], ws);
      var notify := match First(rest)
        case Some(remaining) => [Send(remaining, PeerLeft)]
        case None => [];
      var rooms' := if |rest| == 0 then s.rooms - {id} else s.rooms[id := rest];
      Step(Server(rooms', s.clientRooms - {ws}), notify)
  }

  /** The `close` hook: leave the room recorded in the reverse index, if
      there is a truthy entry. */
  function Close(s: Server, ws: Conn): (r: Step)
    ensures ws in s.clientRooms && s.clientRooms[ws] != "" ==>
      r == LeaveRoom(s, ws, Some(s.clientRooms[ws]))
    ensures ws !in s.clientRooms || s.clientRooms[ws] == "" ==> r == Step(s, [])
  {
    if ws in s.clientRooms && s.clientRooms[ws] != "" then
      LeaveRoom(s, ws, Some(s.clientRooms[ws]))
    else
      Step(s, [])
  }

  // ---------------------------------------------------------------------
  // The invariant

  lemma InitValid()
    ensures Valid(Init) && Consistent(Init)
  {
  }

  lemma CreatePreservesValid(s: Server, ws: Conn, id: RoomId)
    requires Valid(s) && FreshId(s, id)
    ensures Valid(CreateRoom(s, ws, id).next)
  {
  }

  lemma JoinPreservesValid(s: Server, ws: Conn, roomId: Option<RoomId>)
    requires Valid(s)
    ensures Valid(JoinRoom(s, ws, roomId).next)
  {
  }

  lemma LeavePreservesValid(s: Server, ws: Conn, roomId: Option<RoomId>)
    requires Valid(s)
    ensures Valid(LeaveRoom(s, ws, roomId).next)
  {
  }

  lemma ClosePreservesValid(s: Server, ws: Conn)
    requires Valid(s)
    ensures Valid(Close(s, ws).next)
  {
    if ws in s.clientRooms && s.clientRooms[ws] != "" {
      LeavePreservesValid(s, ws, Some(s.clientRooms[ws]));
    }
  }

  /** With a consistent index, closing a connection removes it from every
      room and from the index, and at most its one peer is told. */
  lemma CloseEvictsConnection(s: Server, ws: Conn)
    requires Valid(s) && Consistent(s)
    ensures var r := Close(s, ws);
      && ws !in r.next.clientRooms
      && (forall id :: id in r.next.rooms ==> ws !in r.next.rooms[id])
      && |r.outbox| <= 1
      && (forall k :: 0 <= k < |r.outbox| ==> r.outbox[k] == Send(r.outbox[k].to, PeerLeft) && r.outbox[k].to != ws)
  {
    if ws in s.clientRooms {
      var mine := s.clientRooms[ws];
      var t := Close(s, ws).next;
      forall id | id in t.rooms
        ensures ws !in t.rooms[id]
      {
        if id != mine {
          assert t.rooms[id] == s.rooms[id];
        }
      }
    }
  }

  // ---------------------------------------------------------------------
  // Round trips

  /** Creating a room and leaving it at once restores the state exactly, and
      nobody is told anything on the way out. */
  lemma CreateThenLeave(s: Server, ws: Conn, id: RoomId)
    requires FreshId(s, id) && ws !in s.clientRooms
    ensures LeaveRoom(CreateRoom(s, ws, id).next, ws, Some(id)) == Step(s, [])
  {
    var t := CreateRoom(s, ws, id).next;
    assert Delete(t.rooms[id], ws) == [] by {
      DeleteAfterAdd([], ws);
    }
    assert t.rooms - {id} == s.rooms;
    assert t.clientRooms - {ws} == s.clientRooms;
  }

  /** A second client joining a room and then leaving it restores the state
      exactly, and the creator hears `peer-joined` and then `peer-left`. */
  lemma JoinThenLeave(s: Server, ws: Conn, id: RoomId)
    requires Valid(s) && CanJoin(s, Some(id))
    requires ws !in s.clientRooms && ws !in s.rooms[id]
    ensures var joined := JoinRoom(s, ws, Some(id));
      && joined.outbox == [Send(ws, RoomJoined(id)), Send(s.rooms[id][0], PeerJoined)]
      && LeaveRoom(joined.next, ws, Some(id)) == Step(s, [Send(s.rooms[id][0], PeerLeft)])
  {
    var occ := s.rooms[id];
    assert occ == [occ[0]];
    FirstOtherOfPair(occ[0], ws);
    var t := JoinRoom(s, ws, Some(id)).next;
    DeleteAfterAdd(occ, ws);
    assert t.rooms[id := occ] == s.rooms;
    assert t.clientRooms - {ws} == s.clientRooms;
  }

  /** Once two clients are in a room, any further join is refused as full
      and changes nothing. */
  lemma SecondJoinFillsRoom(s: Server, ws: Conn, third: Conn, id: RoomId)
    requires Valid(s) && CanJoin(s, Some(id)) && ws !in s.rooms[id]
    ensures var t := JoinRoom(s, ws, Some(id)).next;
      JoinRoom(t, third, Some(id)) == Step(t, [Send(third, Error(RoomIsFull))])
  {
  }

  // ---------------------------------------------------------------------
  // The reverse index

  /** Creating a room while in another one breaks the agreement between the
      reverse index and the room table: the requester stays an occupant of
      its old room, but its index entry now names the new one. */
  lemma CreateWhileInRoomBreaksConsistency(s: Server, ws: Conn, id: RoomId)
    requires Consistent(s) && FreshId(s, id) && ws in s.clientRooms
    ensures !Consistent(CreateRoom(s, ws, id).next)
  {
    var t := CreateRoom(s, ws, id).next;
    var before := s.clientRooms[ws];
    assert before in t.rooms && ws in t.rooms[before];
  }

  /** Leaving a room one is not in, while in another, drops one's own index
      entry and leaves one an occupant of a room the index no longer names. */
  lemma LeaveOtherRoomBreaksConsistency(s: Server, ws: Conn, id: RoomId)
    requires Consistent(s) && id in s.rooms && ws in s.clientRooms && s.clientRooms[ws] != id
    ensures !Consistent(LeaveRoom(s, ws, Some(id)).next)
  {
    var t := LeaveRoom(s, ws, Some(id)).next;
    var mine := s.clientRooms[ws];
    assert mine in t.rooms && t.rooms[mine] == s.rooms[mine];
    assert ws in t.rooms[mine];
  }

  /** Creating a room from outside any room keeps the index consistent. */
  lemma CreatePreservesConsistent(s: Server, ws: Conn, id: RoomId)
    requires Consistent(s) && FreshId(s, id) && ws !in s.clientRooms
    ensures Consistent(CreateRoom(s, ws, id).next)
  {
  }

  /** Joining from outside any room keeps the index consistent. */
  lemma JoinPreservesConsistent(s: Server, ws: Conn, roomId: Option<RoomId>)
    requires Valid(s) && Consistent(s) && ws !in s.clientRooms
    ensures Consistent(JoinRoom(s, ws, roomId).next)
  {
    if CanJoin(s, roomId) {
      var id := roomId.value;
      assert ws !in s.rooms[id];
      assert JoinRoom(s, ws, roomId).next.rooms[id] == s.rooms[id] + [ws];
    }
  }

  /** Leaving keeps the index consistent as long as the room named is the
      requester's own whenever the requester is in a room at all. */
  lemma LeavePreservesConsistent(s: Server, ws: Conn, roomId: Option<RoomId>)
    requires Valid(s) && Consistent(s)
    requires ws in s.clientRooms && roomId.Some? && roomId.value in s.rooms ==>
      s.clientRooms[ws] == roomId.value
    ensures Consistent(LeaveRoom(s, ws, roomId).next)
  {
    if roomId.Some? && roomId.value in s.rooms {
      if ws in s.clientRooms {
        LeaveOwnRoomConsistent(s, ws, roomId.value);
      } else {
        LeaveAsOutsiderUnchanged(s, ws, roomId.value);
      }
    }
  }

  lemma LeaveOwnRoomConsistent(s: Server, ws: Conn, id: RoomId)
    requires Valid(s) && Consistent(s)
    requires id in s.rooms && ws in s.clientRooms && s.clientRooms[ws] == id
    ensures Consistent(LeaveRoom(s, ws, Some(id)).next)
  {
    var occ := s.rooms[id];
    var rest := Delete(occ, ws);
    var t := LeaveRoom(s, ws, Some(id)).next;
    forall c | c in t.clientRooms
      ensures t.clientRooms[c] in t.rooms && c in t.rooms[t.clientRooms[c]]
    {
      if t.clientRooms[c] == id {
        assert c in occ && c != ws;
        assert c in rest;
      }
    }
    forall x, c | x in t.rooms && c in t.rooms[x]
      ensures c in t.clientRooms && t.clientRooms[c] == x
    {
      if x == id {
        assert c in rest;
      } else {
        assert c in s.rooms[x];
      }
    }
  }

  /** A connection in no room that names a live room leaves the state as it
      was (though the room's first occupant is still told `peer-left`). */
  lemma LeaveAsOutsiderUnchanged(s: Server, ws: Conn, id: RoomId)
    requires Valid(s) && Consistent(s)
    requires id in s.rooms && ws !in s.clientRooms
    ensures LeaveRoom(s, ws, Some(id)) == Step(s, [Send(s.rooms[id][0], PeerLeft)])
  {
    var occ := s.rooms[id];
    assert ws !in occ;
    assert s.rooms[id := occ] == s.rooms;
    assert s.clientRooms - {ws} == s.clientRooms;
  }

  /** The close hook always keeps a consistent index consistent. */
  lemma ClosePreservesConsistent(s: Server, ws: Conn)
    requires Valid(s) && Consistent(s)
    ensures Consistent(Close(s, ws).next)
  {
    if ws in s.clientRooms && s.clientRooms[ws] != "" {
      LeavePreservesConsistent(s, ws, Some(s.clientRooms[ws]));
    }
  }
}
