/** The values exchanged between the signalling server and a call page:
    the participant record, the client-to-server requests, the
    server-to-client notices and how Socket.IO addresses an emission. */
module Messages {

  datatype Option<T> = None | Some(value: T)

  /** JavaScript truthiness of a value that is a string, null or undefined:
      null, undefined and the empty string are falsy. */
  predicate Truthy(s: Option<string>)
  {
    s.Some? && s.value != ""
  }

  /** One entry of the server's `connectedUsers` table, also the element
      type of every `users-list` snapshot a client receives. */
  datatype Record = Record(socketId: string, peerId: Option<string>, inCall: bool)

  /** Payload of `incoming-call`. */
  datatype Invite = Invite(from: string, callerPeerId: string, callerSocketId: string)

  /** Events a call page emits to the server. */
  datatype Request =
    | RegisterPeer(peerId: string)
    | InitiateCall(targetSocketId: string, callerPeerId: string)
    | AcceptCall(callerSocketId: string, answererPeerId: string)
    | RejectCall(callerSocketId: string)
    | EndCall(otherSocketId: string)

  /** Events the server emits to call pages. */
  datatype Notice =
    | OnlineUsers(userIds: seq<string>)     // getOnlineUsers
    | UsersList(users: seq<Record>)         // users-list
    | UserJoined(user: Record)              // user-joined
    | UserLeft(socketId: string)            // user-left
    | PeerRegistered(user: Record)          // peer-registered
    | IncomingCall(invite: Invite)          // incoming-call
    | CallAccepted(answererPeerId: string, answererSocketId: string)
    | CallRejected
    | CallFailed(reason: string)
    | CallEnded

  /** How a handler addresses an emission. */
  datatype Target =
    | Sender             // socket.emit: the handler's own connection
    | Room(id: string)   // socket.to(id).emit: the room of `id`, never the sender
    | Everyone           // io.emit: every live connection
    | Others             // socket.broadcast.emit: every live connection but the sender

  datatype Emit = Emit(to: Target, notice: Notice)

  /** The live connections that receive an emission made by `sender`
      under Socket.IO's rules (every connection is alone in the room
      named by its id). */
  function Recipients(t: Target, sender: string, live: set<string>): (r: set<string>)
    ensures r <= live
    ensures sender in r <==> sender in live && (t.Sender? || t.Everyone?)
    ensures t.Room? ==> r <= {t.id}
    ensures t.Room? && t.id != sender && t.id in live ==> r == {t.id}
    ensures t.Others? ==> r == live - {sender}
    ensures t.Everyone? ==> r == live
    ensures t.Sender? ==> r == live * {sender}
  {
    match t
    case Sender => live * {sender}
    case Room(id) => live * {id} - {sender}
    case Everyone => live
    case Others => live - {sender}
  }
}
