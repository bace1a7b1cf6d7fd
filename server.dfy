/** The server's call coordinator: the presence table (`userSocketMap`),
    the participant table (`connectedUsers`) and the seven connection
    event handlers that read and update them. Node runs one handler to
    completion at a time, so each handler is one method call here. */
module Server {
  import opened Messages
  import Table

  /** The reason `call-failed` carries. */
  const BusyReason := "User busy or not available"

  /** The property key `delete userSocketMap[userId]` removes: a handshake
      without a user id deletes the key "undefined". */
  function PresenceKey(userId: Option<string>): (k: string)
    ensures userId.Some? ==> k == userId.value
    ensures userId.None? ==> k == "undefined"
  {
    match userId
    case Some(u) => u
    case None => "undefined"
  }

  /** The busy check of `initiate-call`: both records exist and neither is in a call. */
  predicate CanStartCall(m: map<string, Record>, caller: string, target: string)
  {
    target in m && caller in m && !m[target].inCall && !m[caller].inCall
  }

  /** The record of `k` with its call flag set to `b`, every other record as it was. */
  function WithFlag(m: map<string, Record>, k: string, b: bool): (r: map<string, Record>)
    requires k in m
    ensures r.Keys == m.Keys
    ensures r[k].inCall == b && r[k].socketId == m[k].socketId && r[k].peerId == m[k].peerId
    ensures forall x | x in m && x != k :: r[x] == m[x]
  {
    m[k := m[k].(inCall := b)]
  }

  /** What the disconnect scan looks for: a record other than `self` that is in a call. */
  predicate OtherInCall(m: map<string, Record>, k: string, self: string)
    requires k in m
  {
    m[k].inCall && k != self
  }

  /** The first key, in table order, whose record is another one in a call. */
  function FirstOtherInCall(keys: seq<string>, m: map<string, Record>, self: string): (r: Option<string>)
    requires forall k | k in keys :: k in m
    ensures r.None? <==> forall k | k in keys :: !OtherInCall(m, k, self)
    ensures r.Some? ==> r.value in keys && OtherInCall(m, r.value, self)
    ensures r.Some? ==> exists i | 0 <= i < |keys| :: keys[i] == r.value &&
                          forall j | 0 <= j < i :: !OtherInCall(m, keys[j], self)
    decreases |keys|
  {
    if keys == [] then None
    else if OtherInCall(m, keys[0], self) then Some(keys[0])
    else
      var r := FirstOtherInCall(keys[1..], m, self);
      assert r.Some? ==> exists i | 0 <= i < |keys| :: keys[i] == r.value &&
                           forall j | 0 <= j < i :: !OtherInCall(m, keys[j], self) by {
        if r.Some? {
          var i :| 0 <= i < |keys[1..]| && keys[1..][i] == r.value &&
                   forall j | 0 <= j < i :: !OtherInCall(m, keys[1..][j], self);
          assert keys[i + 1] == r.value;
          forall j | 0 <= j < i + 1 ensures !OtherInCall(m, keys[j], self) {
            if j > 0 { assert keys[j] == keys[1..][j - 1]; }
          }
        }
      }
      r
  }

  /** The scan's answer is the key at the first position holding another
      record in a call, and none when no position does. */
  lemma {:induction false} FirstOtherAt(keys: seq<string>, m: map<string, Record>, self: string, i: nat)
    requires forall k | k in keys :: k in m
    requires i <= |keys|
    requires forall j | 0 <= j < i :: !OtherInCall(m, keys[j], self)
    requires i < |keys| ==> OtherInCall(m, keys[i], self)
    ensures FirstOtherInCall(keys, m, self) == if i < |keys| then Some(keys[i]) else None
    decreases i
  {
    if i > 0 {
      assert !OtherInCall(m, keys[0], self);
      forall j | 0 <= j < i - 1 ensures !OtherInCall(m, keys[1..][j], self) {
        assert keys[1..][j] == keys[j + 1];
      }
      FirstOtherAt(keys[1..], m, self, i - 1);
    }
  }

  /** The record whose call a disconnecting `sender` ends: none unless the
      sender itself is in a call, otherwise the first other record in a call. */
  function Partner(keys: seq<string>, m: map<string, Record>, sender: string): (r: Option<string>)
    requires forall k | k in keys :: k in m
    ensures r.Some? ==> sender in m && m[sender].inCall && r.value in keys && OtherInCall(m, r.value, sender)
    ensures sender !in m || !m[sender].inCall ==> r.None?
    ensures sender in m && m[sender].inCall ==> r == FirstOtherInCall(keys, m, sender)
  {
    if sender in m && m[sender].inCall then FirstOtherInCall(keys, m, sender) else None
  }

  class Coordinator {
    /** Keys of `connectedUsers` in insertion order. */
    var order: seq<string>
    /** `connectedUsers`: socket id to participant record. */
    var records: map<string, Record>
    /** Keys of `userSocketMap` in insertion order (`Object.keys`). */
    var onlineOrder: seq<string>
    /** `userSocketMap`: user id to socket id. */
    var userSocketMap: map<string, string>
    /** The user id each live connection's handshake carried; the
        connection's own disconnect handler reads it. */
    var handshake: map<string, Option<string>>

    ghost predicate Valid()
      reads this
    {
      && Table.Valid(order, records)
      && Table.Valid(onlineOrder, userSocketMap)
      && forall id | id in records :: records[id].socketId == id
    }

    /** `Array.from(connectedUsers.values())`. */
    function Snapshot(): (s: seq<Record>)
      reads this
      requires Valid()
      ensures |s| == |order|
      ensures forall i | 0 <= i < |s| :: s[i] == records[order[i]] && s[i].socketId == order[i]
    {
      Table.Values(order, records)
    }

    /** `getReceiverSocketId`: the socket registered for a user id, if any. */
    function ReceiverSocketId(userId: string): (r: Option<string>)
      reads this
      ensures r.Some? <==> userId in userSocketMap
      ensures r.Some? ==> r.value == userSocketMap[userId]
    {
      if userId in userSocketMap then Some(userSocketMap[userId]) else None
    }

    constructor ()
      ensures Valid()
      ensures order == [] && records == map[] && onlineOrder == [] && userSocketMap == map[]
      ensures handshake == map[]
    {
      order, records := [], map[];
      onlineOrder, userSocketMap := [], map[];
      handshake := map[];
    }

    /** A new connection `id`, whose handshake carried `userId`. */
    method Connect(id: string, userId: Option<string>) returns (emits: seq<Emit>)
      requires Valid()
      modifies this`records, this`order, this`userSocketMap, this`onlineOrder, this`handshake
      ensures Valid()
      ensures handshake == old(handshake)[id := userId]
      ensures Truthy(userId) ==> userSocketMap == old(userSocketMap)[userId.value := id]
                                  && onlineOrder == Table.Put(old(onlineOrder), userId.value)
                                  && ReceiverSocketId(userId.value) == Some(id)
      ensures !Truthy(userId) ==> userSocketMap == old(userSocketMap) && onlineOrder == old(onlineOrder)
      ensures records == old(records)[id := Record(id, None, false)]
      ensures order == Table.Put(old(order), id)
      ensures emits == [Emit(Everyone, OnlineUsers(onlineOrder)),
                        Emit(Sender, UsersList(Snapshot())),
                        Emit(Others, UserJoined(Record(id, None, false)))]
    {
      if Truthy(userId) {
        Table.PutKeepsValid(onlineOrder, userSocketMap, userId.value, id);
        userSocketMap := userSocketMap[userId.value := id];
        onlineOrder := Table.Put(onlineOrder, userId.value);
      }
      handshake := handshake[id := userId];
      Table.PutKeepsValid(order, records, id, Record(id, None, false));
      records := records[id := Record(id, None, false)];
      order := Table.Put(order, id);
      emits := [Emit(Everyone, OnlineUsers(onlineOrder)),
                Emit(Sender, UsersList(Snapshot())),
                Emit(Others, UserJoined(Record(id, None, false)))];
    }

    /** `register-peer` from `sender`. */
    method RegisterPeer(sender: string, peerId: string) returns (emits: seq<Emit>)
      requires Valid()
      modifies this`records
      ensures Valid()
      ensures sender in old(records) ==>
                && records == old(records)[sender := old(records)[sender].(peerId := Some(peerId))]
                && records[sender].inCall == old(records)[sender].inCall
                && emits == [Emit(Everyone, PeerRegistered(Record(sender, Some(peerId), false)))]
      ensures sender !in old(records) ==> records == old(records) && emits == []
    {
      if sender in records {
        records := records[sender := records[sender].(peerId := Some(peerId))];
        emits := [Emit(Everyone, PeerRegistered(Record(sender, Some(peerId), false)))];
      } else {
        emits := [];
      }
    }

    /** `initiate-call` from `sender` to `targetSocketId`. When the caller
        calls itself both lookups alias one record, so one flag is set. */
    method InitiateCall(sender: string, targetSocketId: string, callerPeerId: string) returns (emits: seq<Emit>)
      requires Valid()
      modifies this`records
      ensures Valid()
      ensures CanStartCall(old(records), sender, targetSocketId) ==>
                && records == WithFlag(WithFlag(old(records), targetSocketId, true), sender, true)
                && emits == [Emit(Room(targetSocketId), IncomingCall(Invite(sender, callerPeerId, sender))),
                             Emit(Everyone, UsersList(Snapshot()))]
      ensures !CanStartCall(old(records), sender, targetSocketId) ==>
                records == old(records) && emits == [Emit(Sender, CallFailed(BusyReason))]
    {
      if CanStartCall(records, sender, targetSocketId) {
        records := WithFlag(records, targetSocketId, true);
        records := WithFlag(records, sender, true);
        emits := [Emit(Room(targetSocketId), IncomingCall(Invite(sender, callerPeerId, sender))),
                  Emit(Everyone, UsersList(Snapshot()))];
      } else {
        emits := [Emit(Sender, CallFailed(BusyReason))];
      }
    }

    /** `accept-call` from `sender`: a relay to the caller. It has no
        modifies clause: neither table changes. */
    method AcceptCall(sender: string, callerSocketId: string, answererPeerId: string) returns (emits: seq<Emit>)
      ensures |emits| == 1 && emits[0].to == Room(callerSocketId)
      ensures emits[0].notice == CallAccepted(answererPeerId, sender)
    {
      emits := [Emit(Room(callerSocketId), CallAccepted(answererPeerId, sender))];
    }

    /** `reject-call` from `sender` naming `callerSocketId`. */
    method RejectCall(sender: string, callerSocketId: string) returns (emits: seq<Emit>)
      requires Valid()
      modifies this`records
      ensures Valid()
      ensures callerSocketId in old(records) && sender in old(records) ==>
                && records == WithFlag(WithFlag(old(records), callerSocketId, false), sender, false)
                && emits == [Emit(Room(callerSocketId), CallRejected), Emit(Everyone, UsersList(Snapshot()))]
      ensures callerSocketId !in old(records) || sender !in old(records) ==>
                records == old(records) && emits == []
    {
      if callerSocketId in records && sender in records {
        records := WithFlag(records, callerSocketId, false);
        records := WithFlag(records, sender, false);
        emits := [Emit(Room(callerSocketId), CallRejected), Emit(Everyone, UsersList(Snapshot()))];
      } else {
        emits := [];
      }
    }

    /** `end-call` from `sender` naming `otherSocketId`; the two need not
        be in a call with each other. */
    method EndCall(sender: string, otherSocketId: string) returns (emits: seq<Emit>)
      requires Valid()
      modifies this`records
      ensures Valid()
      ensures otherSocketId in old(records) && sender in old(records) ==>
                && records == WithFlag(WithFlag(old(records), otherSocketId, false), sender, false)
                && emits == [Emit(Room(otherSocketId), CallEnded), Emit(Everyone, UsersList(Snapshot()))]
      ensures otherSocketId !in old(records) || sender !in old(records) ==>
                records == old(records) && emits == []
    {
      if otherSocketId in records && sender in records {
        records := WithFlag(records, otherSocketId, false);
        records := WithFlag(records, sender, false);
        emits := [Emit(Room(otherSocketId), CallEnded), Emit(Everyone, UsersList(Snapshot()))];
      } else {
        emits := [];
      }
    }

    /** The scan of `disconnect`: walk the table in insertion order and
        clear the first record other than `sender` that is in a call. */
    method EndFirstOtherCall(sender: string) returns (ended: Option<string>)
      requires Valid()
      modifies this`records
      ensures Valid()
      ensures ended == FirstOtherInCall(order, old(records), sender)
      ensures records == if ended.Some? then WithFlag(old(records), ended.value, false) else old(records)
    {
      var i := 0;
      while i < |order| && !(records[order[i]].inCall && order[i] != sender)
        invariant 0 <= i <= |order|
        invariant forall j | 0 <= j < i :: !OtherInCall(records, order[j], sender)
        modifies {}
      {
        i := i + 1;
      }
      FirstOtherAt(order, records, sender, i);
      if i < |order| {
        ended := Some(order[i]);
        records := WithFlag(records, order[i], false);
      } else {
        ended := None;
      }
    }

    /** `delete userSocketMap[key]`. */
    method RemovePresence(key: string)
      requires Valid()
      modifies this`userSocketMap, this`onlineOrder
      ensures Valid()
      ensures userSocketMap == old(userSocketMap) - {key}
      ensures onlineOrder == Table.Remove(old(onlineOrder), key)
    {
      Table.RemoveKeepsValid(onlineOrder, userSocketMap, key);
      userSocketMap := userSocketMap - {key};
      onlineOrder := Table.Remove(onlineOrder, key);
    }

    /** `connectedUsers.delete(id)`. */
    method RemoveConnection(id: string)
      requires Valid()
      modifies this`records, this`order
      ensures Valid()
      ensures records == old(records) - {id}
      ensures order == Table.Remove(old(order), id)
      ensures forall r | r in Snapshot() :: r.socketId != id
    {
      Table.RemoveKeepsValid(order, records, id);
      records := records - {id};
      order := Table.Remove(order, id);
    }

    /** `disconnect` of `sender`. The handler belongs to the connection,
        so it fires only for a live one and reads the user id that
        connection's handshake carried. */
    method Disconnect(sender: string) returns (emits: seq<Emit>)
      requires Valid() && sender in handshake
      modifies this`records, this`order, this`userSocketMap, this`onlineOrder, this`handshake
      ensures Valid()
      ensures handshake == old(handshake) - {sender}
      ensures userSocketMap == old(userSocketMap) - {PresenceKey(old(handshake)[sender])}
      ensures onlineOrder == Table.Remove(old(onlineOrder), PresenceKey(old(handshake)[sender]))
      ensures var p := Partner(old(order), old(records), sender);
              records == (if p.Some? then WithFlag(old(records), p.value, false) else old(records)) - {sender}
      ensures order == Table.Remove(old(order), sender)
      ensures sender !in records && forall r | r in Snapshot() :: r.socketId != sender
      ensures var p := Partner(old(order), old(records), sender);
              emits == [Emit(Everyone, OnlineUsers(onlineOrder))]
                       + (if p.Some? then [Emit(Room(p.value), CallEnded)] else [])
                       + [Emit(Others, UserLeft(sender)), Emit(Others, UsersList(Snapshot()))]
    {
      var key := PresenceKey(handshake[sender]);
      handshake := handshake - {sender};
      RemovePresence(key);
      var online := onlineOrder;
      ghost var p := Partner(order, records, sender);
      var ended: Option<string> := None;
      if sender in records && records[sender].inCall {
        ended := EndFirstOtherCall(sender);
      }
      assert ended == p;
      RemoveConnection(sender);
      emits := [Emit(Everyone, OnlineUsers(online))]
               + (if ended.Some? then [Emit(Room(ended.value), CallEnded)] else [])
               + [Emit(Others, UserLeft(sender)), Emit(Others, UsersList(Snapshot()))];
    }
  }
}
