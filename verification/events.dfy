/**
 Outbound messages: what a handler emits, to which audience.

 Opaque client payloads (a chat message, a `user` object announced by
 `user-joined`, SDP bodies, ICE candidates, voice signals) are carried as
 strings the server never looks into.
 */
module Events {
  import opened Common
  import RoomDirectory

  /** Who receives an outbound message. */
  datatype Audience =
    /** `socket.to(roomId)`: every connection in the room except the sender. */
    | RoomExceptSender(roomId: RoomId, sender: ConnId)
    /** `io.to(roomId)`: every connection in the room, the sender included. */
    | WholeRoom(roomId: RoomId)
    /** `io.to(target)` with a connection id: that one connection. */
    | SingleConnection(target: ConnId)

  datatype Payload =
    | ReceiveMessage(message: string)
    | NewUser(user: string)
    | UserReadyUpdate(userId: UserId, isReady: bool)
    | ParticipantsUpdate(participants: seq<RoomDirectory.Participant>)
    | UserLeft(userId: UserId, userName: string)
    | Offer(callerId: string, sdp: string)
    | Answer(sdp: string)
    | IceCandidate(candidate: string)
    | VoiceUserJoined(userId: UserId)
    | VoiceSignal(from: UserId, signal: string)

  datatype Outbound = Outbound(audience: Audience, payload: Payload)

  /** The broadcast discipline of the server: authoritative state snapshots
      (membership lists, ready toggles) go to the whole room so that every
      member converges, the sender included; notifications the sender
      renders itself (chat, announcements, departures, voice arrivals) go to
      the others only; signaling goes to exactly one connection. */
  predicate Scoped(o: Outbound)
  {
    match o.payload
    case ParticipantsUpdate(_) => o.audience.WholeRoom?
    case UserReadyUpdate(_, _) => o.audience.WholeRoom?
    case ReceiveMessage(_) => o.audience.RoomExceptSender?
    case NewUser(_) => o.audience.RoomExceptSender?
    case UserLeft(_, _) => o.audience.RoomExceptSender?
    case VoiceUserJoined(_) => o.audience.RoomExceptSender?
    case Offer(_, _) => o.audience.SingleConnection?
    case Answer(_) => o.audience.SingleConnection?
    case IceCandidate(_) => o.audience.SingleConnection?
    case VoiceSignal(_, _) => o.audience.SingleConnection?
  }

  /** Every message of a handler's output follows the broadcast discipline. */
  predicate AllScoped(out: seq<Outbound>)
  {
    forall i :: 0 <= i < |out| ==> Scoped(out[i])
  }
}
