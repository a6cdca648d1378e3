/** The signaling envelopes: what the server's `JSON.parse` hands to the
    dispatcher, and what the server sends back. JSON text itself is not
    modelled; a decoded message is reduced to the two fields the server
    reads, `type` and `roomId`, plus everything else it only passes on. */
module Envelopes {
  import opened Wrappers
  import opened Occupants

  /** A room identifier: the string `uuidv4()` produced when the room was
      created. */
  type RoomId = string

  /** The value of `data.type` after decoding. Only a string can equal one of
      the `case` labels of the dispatcher's `switch`; anything else is shown
      in the error text as JavaScript's template literal shows it. */
  datatype TypeField =
    | Absent                     // no `type` field: shown as `undefined`
    | Str(text: string)          // a JSON string
    | NonString(shown: string)   // a number, boolean, object, ... and its string form

  /** A decoded message. `roomId` is `None` when the field is missing or is
      not a string (no such value is a key of the room table). `rest` stands
      for every other field, kept verbatim: the opaque `offer`, `answer` or
      `candidate` payload, and a client-supplied `sender`, which is decoded
      JSON and therefore never one of the server's connection objects. */
  datatype Data = Data(kind: TypeField, roomId: Option<RoomId>, rest: string)

  /** One inbound web-socket frame. `Malformed` is a frame on which the
      dispatcher's `try` block threw before reaching its `switch`:
      `JSON.parse` rejected the text, or it decoded to `null` and reading
      `data.type` threw; `message` is that exception's message. */
  datatype Frame =
    | Malformed(message: string)
    | Decoded(data: Data)

  /** What the server sends to a client. `Relay` is a forwarded
      offer/answer/candidate: `JSON.stringify(data)` of the inbound message,
      unchanged. */
  datatype OutMsg =
    | RoomCreated(roomId: RoomId)
    | RoomJoined(roomId: RoomId)
    | PeerJoined
    | PeerLeft
    | Error(message: string)
    | Relay(data: Data)

  /** One `ws.send` call: the connection it goes to and the envelope. */
  datatype Send = Send(to: Conn, msg: OutMsg)

  const CreateRoomType: string := "create-room"
  const JoinRoomType: string := "join-room"
  const OfferType: string := "offer"
  const AnswerType: string := "answer"
  const CandidateType: string := "candidate"
  const LeaveRoomType: string := "leave-room"

  const RoomNotFound: string := "Room not found"
  const RoomIsFull: string := "Room is full"
  const UnknownTypePrefix: string := "Unknown message type: "

  /** `${data.type}`: how the type appears inside the unknown-type error. */
  function TypeText(t: TypeField): string {
    match t
    case Absent => "undefined"
    case Str(text) => text
    case NonString(shown) => shown
  }

  /** The message types the dispatcher's `switch` has a `case` for. */
  predicate IsKnownType(t: TypeField) {
    t.Str? && t.text in {CreateRoomType, JoinRoomType, OfferType, AnswerType, CandidateType, LeaveRoomType}
  }

  /** The three types that are relayed to a peer rather than acted on. */
  predicate IsSignalType(t: TypeField) {
    t.Str? && t.text in {OfferType, AnswerType, CandidateType}
  }
}
