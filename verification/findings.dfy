/** Relaying back to the sender. `forwardMessage` means to skip the sender
    but compares occupants with a field of the decoded message, which is
    never a connection; so a room's first occupant (after a create and a
    join, its creator) gets its own offers, answers and candidates back and
    its peer never sees them. This module exhibits that
    behaviour of `Router.Forward` and gives the relay that picks the peer
    from room membership. */
module Findings {
  import opened Wrappers
  import opened Occupants
  import opened Envelopes
  import opened Rooms
  import opened Router

  /** The first half of the call set-up: A creates a room and B joins it. */
  lemma CreateThenJoin(a: Conn, b: Conn, id: RoomId)
    requires a != b && id != ""
    ensures
      var created := Handle(Init, a, Decoded(Data(Str(CreateRoomType), None, "")), id);
      var joined := Handle(created.next, b, Decoded(Data(Str(JoinRoomType), Some(id), "")), id);
      && created.outbox == [Send(a, RoomCreated(id))]
      && joined.outbox == [Send(b, RoomJoined(id)), Send(a, PeerJoined)]
      && id in joined.next.rooms && joined.next.rooms[id] == [a, b]
      && b in joined.next.clientRooms && joined.next.clientRooms[b] == id
  {
    FirstOtherOfPair(a, b);
    var created := Handle(Init, a, Decoded(Data(Str(CreateRoomType), None, "")), id);
    assert created == CreateRoom(Init, a, id);
    var joinFrame := Decoded(Data(Str(JoinRoomType), Some(id), ""));
    assert Handle(created.next, b, joinFrame, id) == JoinRoom(created.next, b, Some(id));
  }

  /** The usual call set-up, played against the code as written:
      A creates a room, B joins it, A sends an offer. The offer goes back to
      A; B receives nothing. When B then disconnects, A is told `peer-left`
      and the room lives on with A alone in it. */
  lemma OfferReturnsToCreator(a: Conn, b: Conn, id: RoomId, offer: string)
    requires a != b && id != ""
    ensures
      var created := Handle(Init, a, Decoded(Data(Str(CreateRoomType), None, "")), id);
      var joined := Handle(created.next, b, Decoded(Data(Str(JoinRoomType), Some(id), "")), id);
      var offerData := Data(Str(OfferType), Some(id), offer);
      var relayed := Handle(joined.next, a, Decoded(offerData), id);
      var closed := Close(relayed.next, b);
      && relayed.outbox == [Send(a, Relay(offerData))]
      && closed.outbox == [Send(a, PeerLeft)]
      && closed.next.rooms.Keys == {id} && closed.next.rooms[id] == [a]
  {
    CreateThenJoin(a, b, id);
    DeleteFromPair(a, b);
    var created := Handle(Init, a, Decoded(Data(Str(CreateRoomType), None, "")), id);
    var s2 := Handle(created.next, b, Decoded(Data(Str(JoinRoomType), Some(id), "")), id).next;
    assert s2.rooms.Keys == {id};
    var offerData := Data(Str(OfferType), Some(id), offer);
    assert Handle(s2, a, Decoded(offerData), id) == Forward(s2, offerData);
    assert Close(s2, b) == LeaveRoom(s2, b, Some(id));
  }

  /** Corrected relay: the recipient is the first occupant other than the
      connection the message came in on, so it is never echoed back. */
  function ForwardToPeer(s: Server, ws: Conn, data: Data): (r: Step)
    ensures r.next == s
    ensures |r.outbox| <= 1
    ensures forall k :: 0 <= k < |r.outbox| ==>
      && r.outbox[k].to != ws
      && r.outbox[k].msg == Relay(data)
      && data.roomId.Some? && data.roomId.value in s.rooms
      && r.outbox[k].to in s.rooms[data.roomId.value]
    ensures data.roomId.Some? && data.roomId.value in s.rooms ==>
      (|r.outbox| == 1 <==> exists c :: c in s.rooms[data.roomId.value] && c != ws)
  {
    if data.roomId.None? || data.roomId.value !in s.rooms then
      Step(s, [])
    else
      match FirstOther(s.rooms[data.roomId.value], ws)
      case Some(peer) => Step(s, [Send(peer, Relay(data))])
      case None => Step(s, [])
  }

  /** In a full room the corrected relay delivers to exactly the other
      occupant, whichever of the two sent the message. */
  lemma PeerGetsRelay(s: Server, ws: Conn, data: Data)
    requires Valid(s) && data.roomId.Some? && data.roomId.value in s.rooms
    requires |s.rooms[data.roomId.value]| == 2 && ws in s.rooms[data.roomId.value]
    ensures var occ := s.rooms[data.roomId.value];
      var peer := if occ[0] == ws then occ[1] else occ[0];
      ForwardToPeer(s, ws, data).outbox == [Send(peer, Relay(data))]
  {
    var occ := s.rooms[data.roomId.value];
    assert occ == [occ[0], occ[1]];
    FirstOtherOfPair(occ[0], occ[1]);
  }

  /** The same call set-up with the corrected relay: A's offer reaches B. */
  lemma OfferReachesPeer(a: Conn, b: Conn, id: RoomId, offer: string)
    requires a != b && id != ""
    ensures
      var created := Handle(Init, a, Decoded(Data(Str(CreateRoomType), None, "")), id);
      var joined := Handle(created.next, b, Decoded(Data(Str(JoinRoomType), Some(id), "")), id);
      var offerData := Data(Str(OfferType), Some(id), offer);
      ForwardToPeer(joined.next, a, offerData).outbox == [Send(b, Relay(offerData))]
  {
    CreateThenJoin(a, b, id);
    FirstOtherOfPair(a, b);
  }
}
