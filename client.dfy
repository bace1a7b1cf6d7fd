/** The call page a client runs: its React state variables as fields, the
    socket event handlers and the four call-control actions as methods that
    update them and return the events they emit to the server. */
module Client {
  import opened Messages
  import UserList

  datatype CallState = Idle | Calling | Incoming | Connected

  /** A stand-in handle for something owned by the browser or PeerJS: the
      peer, a media connection, a media stream. Only whether one is held
      is modelled. */
  datatype Handle = Handle(serial: nat)

  class CallPage {
    /** Whether the auth store holds a socket. */
    const hasSocket: bool
    var mySocketId: string
    var myPeerId: string
    var peer: Option<Handle>
    /** `connectedUsers`. */
    var users: seq<Record>
    var currentCall: Option<Handle>
    var localStream: Option<Handle>
    var remoteStream: Option<Handle>
    var callState: CallState
    var incomingCall: Option<Invite>
    var otherUserSocketId: string

    /** While the page shows an incoming call it holds the invitation, so
        the Accept and Reject buttons are never no-ops there (the last
        ensures of `AcceptCall` and `RejectCall`). */
    ghost predicate Valid()
      reads this
    {
      callState == Incoming ==> incomingCall.Some?
    }

    /** The users listed with a call button. */
    function CallableUsers(): (r: seq<Record>)
      reads this
      ensures !UserList.HasId(r, mySocketId) && UserList.DistinctIds(r)
      ensures forall v | v in r :: v in users
    {
      UserList.Callable(users, mySocketId)
    }

    /** The page as first rendered. */
    constructor (hasSocket: bool)
      ensures Valid() && this.hasSocket == hasSocket
      ensures mySocketId == "" && myPeerId == "" && peer == None && users == []
      ensures currentCall == None && localStream == None && remoteStream == None
      ensures callState == Idle && incomingCall == None && otherUserSocketId == ""
    {
      this.hasSocket := hasSocket;
      mySocketId, myPeerId, peer, users := "", "", None, [];
      currentCall, localStream, remoteStream := None, None, None;
      callState, incomingCall, otherUserSocketId := Idle, None, "";
    }

    /** `connect`: remember the id the server gave this connection. */
    method OnConnect(id: string)
      modifies this`mySocketId
      ensures mySocketId == id
    {
      mySocketId := id;
    }

    /** The PeerJS peer opened with id `id`: register it with the server. */
    method OnPeerOpen(id: string, h: Handle) returns (out: seq<Request>)
      modifies this`myPeerId, this`peer
      ensures myPeerId == id && peer == Some(h)
      ensures out == [RegisterPeer(id)]
    {
      myPeerId := id;
      out := [RegisterPeer(id)];
      peer := Some(h);
    }

    /** `users-list`: the server's snapshot replaces the list. */
    method OnUsersList(list: seq<Record>)
      modifies this`users
      ensures users == list
    {
      users := list;
    }

    method OnUserJoined(u: Record)
      modifies this`users
      ensures users == UserList.Joined(old(users), u)
    {
      users := UserList.Joined(users, u);
    }

    method OnUserLeft(socketId: string)
      modifies this`users
      ensures users == UserList.Left(old(users), socketId)
    {
      users := UserList.Left(users, socketId);
    }

    method OnPeerRegistered(u: Record)
      modifies this`users
      ensures users == UserList.Replaced(old(users), u)
    {
      users := UserList.Replaced(users, u);
    }

    /** `incoming-call`: store the invitation and show it. */
    method OnIncomingCall(invite: Invite)
      modifies this`incomingCall, this`callState
      ensures Valid()
      ensures callState == Incoming && incomingCall == Some(invite)
    {
      incomingCall := Some(invite);
      callState := Incoming;
    }

    /** `call-accepted`. Its handler is installed only when the peer
        opens, so before that the event is dropped. */
    method OnCallAccepted(answererPeerId: string, answererSocketId: string)
      requires Valid()
      modifies this`callState, this`otherUserSocketId
      ensures Valid()
      ensures peer.Some? ==> callState == Connected && otherUserSocketId == answererSocketId
      ensures peer.None? ==> callState == old(callState) && otherUserSocketId == old(otherUserSocketId)
    {
      if peer.Some? {
        callState := Connected;
        otherUserSocketId := answererSocketId;
      }
    }

    /** The camera stream and the media connection became available
        (after `call-accepted` on the caller, on the peer's `call` event on
        the answerer). */
    method OnMediaReady(stream: Handle, call: Handle)
      modifies this`localStream, this`currentCall
      ensures localStream == Some(stream) && currentCall == Some(call)
    {
      localStream := Some(stream);
      currentCall := Some(call);
    }

    /** The media connection delivered the other side's stream. */
    method OnRemoteStream(stream: Handle)
      modifies this`remoteStream
      ensures remoteStream == Some(stream)
    {
      remoteStream := Some(stream);
    }

    /** `call-rejected`. */
    method OnCallRejected()
      modifies this`callState, this`incomingCall
      ensures Valid()
      ensures callState == Idle && incomingCall == None
    {
      callState := Idle;
      incomingCall := None;
    }

    /** `call-failed`: back to idle; the target stays remembered. */
    method OnCallFailed(reason: string)
      modifies this`callState
      ensures Valid()
      ensures callState == Idle
    {
      callState := Idle;
    }

    /** `call-ended`: hang up locally. */
    method OnCallEnded() returns (out: seq<Request>)
      modifies this`currentCall, this`localStream, this`remoteStream
      modifies this`callState, this`incomingCall, this`otherUserSocketId
      ensures Valid()
      ensures callState == Idle && incomingCall == None && otherUserSocketId == ""
      ensures currentCall == None && localStream == None && remoteStream == None
      ensures out == if hasSocket && old(otherUserSocketId) != "" then [Request.EndCall(old(otherUserSocketId))] else []
    {
      out := EndCall();
    }

    /** `initiateCall(targetUser)`. */
    method InitiateCall(target: Record) returns (out: seq<Request>)
      requires Valid()
      modifies this`callState, this`otherUserSocketId
      ensures Valid()
      ensures peer.None? || !hasSocket ==>
                callState == old(callState) && otherUserSocketId == old(otherUserSocketId) && out == []
      ensures peer.Some? && hasSocket ==>
                && callState == Calling && otherUserSocketId == target.socketId
                && out == [Request.InitiateCall(target.socketId, myPeerId)]
    {
      if peer.None? || !hasSocket {
        return [];
      }
      callState := Calling;
      otherUserSocketId := target.socketId;
      out := [Request.InitiateCall(target.socketId, myPeerId)];
    }

    /** `acceptCall()`. */
    method AcceptCall() returns (out: seq<Request>)
      requires Valid()
      modifies this`callState, this`otherUserSocketId, this`incomingCall
      ensures Valid()
      ensures !hasSocket || old(incomingCall).None? ==>
                && callState == old(callState) && otherUserSocketId == old(otherUserSocketId)
                && incomingCall == old(incomingCall) && out == []
      ensures hasSocket && old(incomingCall).Some? ==>
                && callState == Connected && incomingCall == None
                && otherUserSocketId == old(incomingCall).value.callerSocketId
                && out == [Request.AcceptCall(old(incomingCall).value.callerSocketId, myPeerId)]
      ensures hasSocket && old(callState) == Incoming ==> callState == Connected && |out| == 1
    {
      if !hasSocket || incomingCall.None? {
        return [];
      }
      var invite := incomingCall.value;
      callState := Connected;
      otherUserSocketId := invite.callerSocketId;
      out := [Request.AcceptCall(invite.callerSocketId, myPeerId)];
      incomingCall := None;
    }

    /** `rejectCall()`. */
    method RejectCall() returns (out: seq<Request>)
      requires Valid()
      modifies this`callState, this`incomingCall
      ensures Valid()
      ensures !hasSocket || old(incomingCall).None? ==>
                callState == old(callState) && incomingCall == old(incomingCall) && out == []
      ensures hasSocket && old(incomingCall).Some? ==>
                && callState == Idle && incomingCall == None
                && out == [Request.RejectCall(old(incomingCall).value.callerSocketId)]
      ensures hasSocket && old(callState) == Incoming ==> callState == Idle && |out| == 1
    {
      if !hasSocket || incomingCall.None? {
        return [];
      }
      out := [Request.RejectCall(incomingCall.value.callerSocketId)];
      callState := Idle;
      incomingCall := None;
    }

    /** `endCall()`: tell the other side if there is one, then release the
        call and both streams and return to idle. */
    method EndCall() returns (out: seq<Request>)
      modifies this`currentCall, this`localStream, this`remoteStream
      modifies this`callState, this`incomingCall, this`otherUserSocketId
      ensures Valid()
      ensures callState == Idle && incomingCall == None && otherUserSocketId == ""
      ensures currentCall == None && localStream == None && remoteStream == None
      ensures out == if hasSocket && old(otherUserSocketId) != "" then [Request.EndCall(old(otherUserSocketId))] else []
    {
      out := [];
      if hasSocket && otherUserSocketId != "" {
        out := [Request.EndCall(otherUserSocketId)];
      }
      currentCall := None;
      localStream := None;
      remoteStream := None;
      callState := Idle;
      incomingCall := None;
      otherUserSocketId := "";
    }
  }
}
