/** The message router: the per-message dispatcher, the relay of
    offer/answer/candidate messages, and runs of the whole server over a
    sequence of events. */
module Router {
  import opened Wrappers
  import opened Occupants
  import opened Envelopes
  import opened Rooms

  /** `forwardMessage`: sends `data`, unchanged, to the first occupant that is
      not strictly equal to `data.sender`. That field is decoded JSON, never a
      connection object, so the test excludes nobody and the recipient is the
      room's first-inserted occupant, whoever sent the message. */
  function Forward(s: Server, data: Data): (r: Step)
    ensures r.next == s
    ensures |r.outbox| <= 1
    ensures |r.outbox| == 1 <==>
      data.roomId.Some? && data.roomId.value in s.rooms && |s.rooms[data.roomId.value]| > 0
    ensures |r.outbox| == 1 ==>
      r.outbox[0] == Send(s.rooms[data.roomId.value][0], Relay(data))
  {
    if data.roomId.None? || data.roomId.value !in s.rooms then
      Step(s, [])
    else
      match First(s.rooms[data.roomId.value])
      case Some(recipient) => Step(s, [Send(recipient, Relay(data))])
      case None => Step(s, [])
  }

  /** A frame whose handler calls `uuidv4()`. */
  predicate NeedsFreshId(frame: Frame) {
    frame.Decoded? && frame.data.kind == Str(CreateRoomType)
  }

  /** Every send goes back to the sender of the message or to an occupant of
      a room that was in the table before the message. */
  predicate AddressedWithin(s: Server, ws: Conn, outbox: seq<Send>) {
    forall k :: 0 <= k < |outbox| ==>
      outbox[k].to == ws || exists id :: id in s.rooms && outbox[k].to in s.rooms[id]
  }

  /** The `message` handler: decode, switch on `type`, and turn any
      exception into one `error` envelope to the sender. `id` is the value
      `uuidv4()` returns if the handler asks for one. */
  function Handle(s: Server, ws: Conn, frame: Frame, id: RoomId): (r: Step)
    requires NeedsFreshId(frame) ==> FreshId(s, id)
    ensures frame.Malformed? ==> r == Step(s, [Send(ws, Error(frame.message))])
    ensures frame.Decoded? && !IsKnownType(frame.data.kind) ==>
      r == Step(s, [Send(ws, Error(UnknownTypePrefix + TypeText(frame.data.kind)))])
    ensures frame.Decoded? && IsSignalType(frame.data.kind) ==> r == Forward(s, frame.data)
    ensures NeedsFreshId(frame) ==> r == CreateRoom(s, ws, id)
    ensures frame.Decoded? && frame.data.kind == Str(JoinRoomType) ==>
      r == JoinRoom(s, ws, frame.data.roomId)
    ensures frame.Decoded? && frame.data.kind == Str(LeaveRoomType) ==>
      r == LeaveRoom(s, ws, frame.data.roomId)
    ensures AddressedWithin(s, ws, r.outbox)
  {
    match frame
    case Malformed(message) => Step(s, [Send(ws, Error(message))])
    case Decoded(data) =>
      var t := data.kind;
      if t == Str(CreateRoomType) then
        CreateRoom(s, ws, id)
      else if t == Str(JoinRoomType) then
        var r := JoinRoom(s, ws, data.roomId);
        assert data.roomId.Some? && data.roomId.value in s.rooms && |r.outbox| == 2 ==>
          r.outbox[1].to in s.rooms[data.roomId.value];
        r
      else if t == Str(OfferType) || t == Str(AnswerType) || t == Str(CandidateType) then
        Forward(s, data)
      else if t == Str(LeaveRoomType) then
        LeaveRoom(s, ws, data.roomId)
      else
        Step(s, [Send(ws, Error(UnknownTypePrefix + TypeText(t)))])
  }

  /** Only `create-room`, `join-room` and `leave-room` change the state. */
  lemma OnlyRoomMessagesChangeState(s: Server, ws: Conn, frame: Frame, id: RoomId)
    requires NeedsFreshId(frame) ==> FreshId(s, id)
    ensures Handle(s, ws, frame, id).next != s ==>
      frame.Decoded? && frame.data.kind.Str? &&
      frame.data.kind.text in {CreateRoomType, JoinRoomType, LeaveRoomType}
  {
  }

  lemma HandlePreservesValid(s: Server, ws: Conn, frame: Frame, id: RoomId)
    requires Valid(s)
    requires NeedsFreshId(frame) ==> FreshId(s, id)
    ensures Valid(Handle(s, ws, frame, id).next)
  {
    if NeedsFreshId(frame) {
      CreatePreservesValid(s, ws, id);
    } else if frame.Decoded? && frame.data.kind == Str(JoinRoomType) {
      JoinPreservesValid(s, ws, frame.data.roomId);
    } else if frame.Decoded? && frame.data.kind == Str(LeaveRoomType) {
      LeavePreservesValid(s, ws, frame.data.roomId);
    }
  }

  // ---------------------------------------------------------------------
  // Runs

  /** What the event loop hands the server: a frame from a connection (with
      the id `uuidv4()` would return) or the closing of a connection. */
  datatype Event =
    | Message(from: Conn, frame: Frame, freshId: RoomId)
    | Closed(who: Conn)

  predicate Admissible(s: Server, e: Event) {
    e.Message? && NeedsFreshId(e.frame) ==> FreshId(s, e.freshId)
  }

  function Apply(s: Server, e: Event): Step
    requires Admissible(s, e)
  {
    match e
    case Message(from, frame, freshId) => Handle(s, from, frame, freshId)
    case Closed(who) => Close(s, who)
  }

  /** Every `uuidv4()` along the run returns an id not in the table. */
  predicate AdmissibleRun(s: Server, evs: seq<Event>)
    decreases |evs|
  {
    |evs| == 0 || (Admissible(s, evs[0]) && AdmissibleRun(Apply(s, evs[0]).next, evs[1..]))
  }

  /** The state after handling `evs` one at a time, in order. */
  function Run(s: Server, evs: seq<Event>): Server
    requires AdmissibleRun(s, evs)
    decreases |evs|
  {
    if |evs| == 0 then s else Run(Apply(s, evs[0]).next, evs[1..])
  }

  lemma ApplyPreservesValid(s: Server, e: Event)
    requires Valid(s) && Admissible(s, e)
    ensures Valid(Apply(s, e).next)
  {
    match e
    case Message(from, frame, freshId) => HandlePreservesValid(s, from, frame, freshId);
    case Closed(who) => ClosePreservesValid(s, who);
  }

  lemma {:induction false} RunPreservesValid(s: Server, evs: seq<Event>)
    requires Valid(s) && AdmissibleRun(s, evs)
    ensures Valid(Run(s, evs))
    decreases |evs|
  {
    if |evs| > 0 {
      ApplyPreservesValid(s, evs[0]);
      RunPreservesValid(Apply(s, evs[0]).next, evs[1..]);
    }
  }

  /** From process start, whatever the clients send and whenever they
      disconnect, every room in the table has one or two occupants. */
  lemma ReachableRoomsHoldOneOrTwo(evs: seq<Event>)
    requires AdmissibleRun(Init, evs)
    ensures RoomSizesOk(Run(Init, evs))
  {
    InitValid();
    RunPreservesValid(Init, evs);
  }

  // ---------------------------------------------------------------------
  // The reverse index along a run

  /** A disciplined client: it creates or joins only while in no room, and
      leaves only the room it is in. */
  predicate Disciplined(s: Server, e: Event) {
    e.Message? && e.frame.Decoded? ==>
      var t := e.frame.data.kind;
      var rid := e.frame.data.roomId;
      && (t == Str(CreateRoomType) || t == Str(JoinRoomType) ==> e.from !in s.clientRooms)
      && (t == Str(LeaveRoomType) && e.from in s.clientRooms && rid.Some? && rid.value in s.rooms ==>
            s.clientRooms[e.from] == rid.value)
  }

  lemma ApplyPreservesConsistent(s: Server, e: Event)
    requires Valid(s) && Consistent(s) && Admissible(s, e) && Disciplined(s, e)
    ensures Consistent(Apply(s, e).next)
  {
    match e
    case Closed(who) =>
      ClosePreservesConsistent(s, who);
    case Message(from, frame, freshId) =>
      if NeedsFreshId(frame) {
        CreatePreservesConsistent(s, from, freshId);
      } else if frame.Decoded? && frame.data.kind == Str(JoinRoomType) {
        JoinPreservesConsistent(s, from, frame.data.roomId);
      } else if frame.Decoded? && frame.data.kind == Str(LeaveRoomType) {
        LeavePreservesConsistent(s, from, frame.data.roomId);
      } else {
        OnlyRoomMessagesChangeState(s, from, frame, freshId);
      }
  }

  predicate DisciplinedRun(s: Server, evs: seq<Event>)
    requires AdmissibleRun(s, evs)
    decreases |evs|
  {
    |evs| == 0 || (Disciplined(s, evs[0]) && DisciplinedRun(Apply(s, evs[0]).next, evs[1..]))
  }

  /** As long as every client is disciplined, the reverse index and
      the room table agree after every event. */
  lemma {:induction false} RunPreservesConsistent(s: Server, evs: seq<Event>)
    requires Valid(s) && Consistent(s) && AdmissibleRun(s, evs) && DisciplinedRun(s, evs)
    ensures Consistent(Run(s, evs))
    decreases |evs|
  {
    if |evs| > 0 {
      ApplyPreservesValid(s, evs[0]);
      ApplyPreservesConsistent(s, evs[0]);
      RunPreservesConsistent(Apply(s, evs[0]).next, evs[1..]);
    }
  }
}
