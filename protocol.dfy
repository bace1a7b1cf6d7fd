/** Runs of the signalling protocol: handlers of the server and of call
    pages applied in sequence, one event at a time, with each emission
    handed to the page it is addressed to. */
module Protocol {
  import opened Messages
  import opened Server
  import opened Client
  import Table

  /** A self-call's `incoming-call` is addressed to the caller's own room,
      which never includes the sender: nobody receives it. */
  lemma SelfInviteReachesNobody(id: string, live: set<string>)
    ensures Recipients(Room(id), id, live) == {}
  {
  }

  /** A self-call passes the busy check and, the two lookups being one
      record, marks just that record as in a call. */
  lemma SelfCallMarksOneRecord(m: map<string, Record>, id: string)
    requires CanStartCall(m, id, id)
    ensures WithFlag(WithFlag(m, id, true), id, true) == WithFlag(m, id, true)
    ensures forall k | k in m && k != id :: WithFlag(m, id, true)[k] == m[k]
  {
  }

  /** With the pairing the protocol intends, a single other record in a
      call, the disconnect scan finds exactly that record. */
  lemma DisconnectFindsTheOnlyCounterpart(keys: seq<string>, m: map<string, Record>, a: string, b: string)
    requires forall k | k in keys :: k in m
    requires a != b && a in m && b in keys && m[a].inCall && m[b].inCall
    requires forall k | k in keys && m[k].inCall :: k == a || k == b
    ensures Partner(keys, m, a) == Some(b)
  {
  }

  /** With a stray in-call record earlier in table order, the disconnect
      scan ends that record's call and leaves the real counterpart busy. */
  lemma DisconnectEndsFirstInTableOrder()
    ensures Partner(["A", "C", "B"],
                    map["A" := Record("A", None, true), "C" := Record("C", None, true), "B" := Record("B", None, true)],
                    "A") == Some("C")
  {
  }

  /** Two callers race for one idle target: the first `initiate-call` to
      be handled wins and the second is told the target is busy. */
  method RaceForOneTarget(s: Coordinator, a: string, b: string, t: string) returns (first: seq<Emit>, second: seq<Emit>)
    requires s.Valid()
    requires a in s.records && b in s.records && t in s.records
    requires a != t && b != t && a != b
    requires !s.records[a].inCall && !s.records[b].inCall && !s.records[t].inCall
    modifies s`records
    ensures s.Valid()
    ensures |first| == 2 && first[0] == Emit(Room(t), IncomingCall(Invite(a, "pa", a)))
    ensures second == [Emit(Sender, CallFailed(BusyReason))]
    ensures s.records[a].inCall && s.records[t].inCall && !s.records[b].inCall
  {
    first := s.InitiateCall(a, t, "pa");
    second := s.InitiateCall(b, t, "pb");
  }

  /** `id` connects without a user id; only its connection record matters here. */
  method Join(s: Coordinator, id: string)
    requires s.Valid()
    modifies s`records, s`order, s`userSocketMap, s`onlineOrder, s`handshake
    ensures s.Valid()
    ensures s.records == old(s.records)[id := Record(id, None, false)]
    ensures s.order == Table.Put(old(s.order), id)
  {
    var _ := s.Connect(id, None);
  }

  /** A, B and C connect, in that order, without user ids. */
  method ThreeConnected() returns (s: Coordinator)
    ensures fresh(s) && s.Valid()
    ensures s.order == ["A", "B", "C"]
    ensures "A" in s.records && s.records["A"] == Record("A", None, false)
    ensures "B" in s.records && s.records["B"] == Record("B", None, false)
    ensures "C" in s.records && s.records["C"] == Record("C", None, false)
  {
    s := new Coordinator();
    Join(s, "A");
    Join(s, "B");
    assert s.order == ["A", "B"];
    Join(s, "C");
  }

  /** Of three connections, A calls B: B's room gets the invitation and
      everyone gets a users-list showing A and B busy and C free. */
  method CallStarted() returns (s: Coordinator, started: seq<Emit>)
    ensures fresh(s) && s.Valid()
    ensures s.order == ["A", "B", "C"]
    ensures "A" in s.records && s.records["A"].inCall
    ensures "B" in s.records && s.records["B"].inCall
    ensures |started| == 2 && started[0] == Emit(Room("B"), IncomingCall(Invite("A", "pa", "A")))
    ensures started[1] == Emit(Everyone, UsersList([Record("A", None, true), Record("B", None, true), Record("C", None, false)]))
  {
    s := ThreeConnected();
    started := s.InitiateCall("A", "B", "pa");
    ghost var snap := started[1].notice.users;
    assert |snap| == 3 && snap[0] == s.records["A"] && snap[1] == s.records["B"] && snap[2] == s.records["C"];
  }

  /** Three connections; A calls B and B accepts; C then calls A and is
      told A is busy. */
  method BusyWhileInCall() returns (started: seq<Emit>, accepted: seq<Emit>, failed: seq<Emit>)
    ensures |started| == 2 && started[0] == Emit(Room("B"), IncomingCall(Invite("A", "pa", "A")))
    ensures started[1] == Emit(Everyone, UsersList([Record("A", None, true), Record("B", None, true), Record("C", None, false)]))
    ensures accepted == [Emit(Room("A"), CallAccepted("pb", "B"))]
    ensures failed == [Emit(Sender, CallFailed(BusyReason))]
  {
    var s;
    s, started := CallStarted();
    accepted := s.AcceptCall("B", "A", "pb");
    failed := s.InitiateCall("C", "A", "pc");
  }

  /** A page that has connected as `id` and whose peer has opened as
      `peerId`, with the registration it sends. */
  method ReadyPage(id: string, peerId: string, serial: nat) returns (p: CallPage, reg: Request)
    ensures fresh(p) && p.Valid() && reg == RegisterPeer(peerId)
    ensures p.hasSocket && p.mySocketId == id && p.myPeerId == peerId && p.peer.Some?
    ensures p.callState == Idle && p.incomingCall == None && p.otherUserSocketId == ""
  {
    p := new CallPage(true);
    p.OnConnect(id);
    var out := p.OnPeerOpen(peerId, Handle(serial));
    reg := out[0];
  }

  /** The server after A and B connect and register peers "pa" and "pb". */
  method TwoRegistered() returns (s: Coordinator)
    ensures fresh(s) && s.Valid()
    ensures "A" in s.records && s.records["A"] == Record("A", Some("pa"), false)
    ensures "B" in s.records && s.records["B"] == Record("B", Some("pb"), false)
  {
    s := new Coordinator();
    Join(s, "A");
    Join(s, "B");
    assert s.records == map["A" := Record("A", None, false), "B" := Record("B", None, false)];
    var _ := s.RegisterPeer("A", "pa");
    var _ := s.RegisterPeer("B", "pb");
  }

  /** `caller` invites an idle `target`; only the invitation and the
      records matter here. */
  method Ring(s: Coordinator, caller: string, target: string, callerPeerId: string) returns (invite: Notice)
    requires s.Valid() && CanStartCall(s.records, caller, target)
    modifies s`records
    ensures s.Valid()
    ensures s.records == WithFlag(WithFlag(old(s.records), target, true), caller, true)
    ensures invite == IncomingCall(Invite(caller, callerPeerId, caller))
  {
    var e := s.InitiateCall(caller, target, callerPeerId);
    invite := e[0].notice;
  }

  /** A calls B: A's page is calling, B's page shows the invitation and
      both records are in a call. */
  method Ringing() returns (s: Coordinator, a: CallPage, b: CallPage, invite: Notice)
    ensures fresh(s) && fresh(a) && fresh(b) && s.Valid() && a.Valid() && b.Valid()
    ensures invite == IncomingCall(Invite("A", "pa", "A"))
    ensures "A" in s.records && s.records["A"] == Record("A", Some("pa"), true)
    ensures "B" in s.records && s.records["B"] == Record("B", Some("pb"), true)
    ensures a.hasSocket && a.peer.Some? && a.callState == Calling && a.otherUserSocketId == "B"
    ensures b.hasSocket && b.myPeerId == "pb" && b.callState == Incoming && b.incomingCall == Some(invite.invite)
  {
    var ra, rb;
    a, ra := ReadyPage("A", "pa", 1);
    b, rb := ReadyPage("B", "pb", 2);
    s := TwoRegistered();
    var call := a.InitiateCall(Record("B", Some("pb"), false));
    invite := Ring(s, "A", call[0].targetSocketId, call[0].callerPeerId);
    b.OnIncomingCall(invite.invite);
  }

  /** B accepts: both pages are connected to each other and both records
      are still in a call. */
  method CallEstablished() returns (s: Coordinator, a: CallPage, b: CallPage, accepted: Notice)
    ensures fresh(s) && fresh(a) && fresh(b) && s.Valid() && a.Valid() && b.Valid()
    ensures accepted == CallAccepted("pb", "B")
    ensures "A" in s.records && s.records["A"] == Record("A", Some("pa"), true)
    ensures "B" in s.records && s.records["B"] == Record("B", Some("pb"), true)
    ensures a.hasSocket && a.callState == Connected && a.otherUserSocketId == "B"
    ensures b.hasSocket && b.callState == Connected && b.otherUserSocketId == "A" && b.incomingCall == None
  {
    var invite;
    s, a, b, invite := Ringing();
    var acc := b.AcceptCall();
    var e2 := s.AcceptCall("B", acc[0].callerSocketId, acc[0].answererPeerId);
    accepted := e2[0].notice;
    a.OnCallAccepted(accepted.answererPeerId, accepted.answererSocketId);
  }

  /** A whole call between two pages through the server: A calls B, B
      accepts, A hangs up. Each page ends idle with nothing held, both
      records are free again, and B, which hangs up in turn on
      `call-ended`, sends one `end-call` back that the server turns into
      one `call-ended` for A, whose page then sends nothing. */
  method TwoPartyCall() returns (toB: Emit, echo: seq<Request>, toA: Emit, last: seq<Request>,
                                 aIdle: bool, bIdle: bool, aBusy: bool, bBusy: bool)
    ensures toB == Emit(Room("B"), CallEnded) && toA == Emit(Room("A"), CallEnded)
    ensures echo == [Request.EndCall("A")] && last == []
    ensures aIdle && bIdle && !aBusy && !bBusy
  {
    var s, a, b, _ := CallEstablished();
    var hang := a.EndCall();
    var e3 := s.EndCall("A", hang[0].otherSocketId);
    toB := e3[0];
    echo := b.OnCallEnded();
    var e4 := s.EndCall("B", echo[0].otherSocketId);
    toA := e4[0];
    last := a.OnCallEnded();
    aIdle := a.callState == Idle && a.localStream == None && a.remoteStream == None && a.currentCall == None;
    bIdle := b.callState == Idle && b.localStream == None && b.remoteStream == None && b.currentCall == None;
    aBusy := s.records["A"].inCall;
    bBusy := s.records["B"].inCall;
  }
}
