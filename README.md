# Call signalling for the video call page

This project models the call-signalling core of a chat application with one-to-one video calls. It has two sides:

- **The server coordinator.** It holds the presence table (`userSocketMap`, user id to socket id) and the participant table (`connectedUsers`, an insertion-ordered Map from socket id to `{socketId, peerId, inCall}`). It handles seven Socket.IO events: connection, `register-peer`, `initiate-call`, `accept-call`, `reject-call`, `end-call` and `disconnect`.
- **The call page.** It holds its React state (`callState`, `incomingCall`, `otherUserSocketId`, the list of connected users, the media handles). It has socket event handlers, the four call-control actions and the list it shows with call buttons.

Modules:

- `Messages`: the participant record, the requests a page sends, the notices the server emits, and how Socket.IO addresses an emission.
  - `Recipients` says who receives each emission. A room send never reaches the sender.
- `Table`: an insertion-ordered table, as a JavaScript `Map` or the string keys of a plain object keep one. It is a key sequence plus a map.
- `Server`: the class `Coordinator`.
  - Each handler is a method that runs to completion, as Node runs it.
  - Each method updates the two tables in place and returns the emissions it makes, in order.
  - The disconnect scan is a loop proved against `FirstOtherInCall`. That function states which record the scan picks.
- `UserList`: the pure list updaters the page applies (`user-joined`, `user-left`, `peer-registered`) and the displayed list: filter out self, then deduplicate through a `Map`.
- `Client`: the class `CallPage`, with its state variables as fields and its handlers and actions as methods that return the requests they emit.
- `Protocol`: lemmas and scenario methods that feed the server's emissions to pages and the pages' requests to the server. They cover a full call, a busy target and a race for one target.

The model keeps these quirks of the code:

- A self-call is accepted and marks one record.
- `end-call` and `reject-call` clear the flags of any two existing records, paired or not.
- A disconnecting participant in a call ends the first *other* in-call record in table order. That record need not be its counterpart.
- `peer-registered` always announces `inCall: false`.
- A handshake without a user id deletes the presence key `"undefined"` on disconnect.

Behaviours of the code worth knowing:

- The code does not enforce the pairing invariant (each in-call record has exactly one in-call counterpart). The lemmas show what the code does instead.
- `call-failed` and `call-rejected` return the page to idle without releasing media handles.
- The disconnect scan logs no inconsistency.
- `incoming-call` carries `from`, `callerPeerId` and `callerSocketId`.

## Model

| member | source | states |
|---|---|---|
| Messages.Recipients | backend/src/lib/socket.js:39-53 | Delivery under the four addressings. `socket.emit` reaches exactly the sender, `io.emit` exactly every live connection; only these two reach the sender. A room send reaches at most the room's own connection, and exactly that one when it is live and not the sender. A broadcast reaches every live connection but the sender. |
| Table.Put | backend/src/lib/socket.js:32-37 | Setting a key keeps every existing key in its place. A new key goes last, a present key adds nothing, and distinct keys stay distinct. |
| Table.Remove | backend/src/lib/socket.js:163 | Deleting a key leaves exactly the other keys, each once. The length drops by one when the key was present, and the sequence is unchanged when the key was absent. |
| Table.RemoveKeepsOrder | backend/src/lib/socket.js:163 | Deleting the key at position i of distinct keys yields the keys before it followed by the keys after it, so the remaining keys keep their order. |
| Table.Values | backend/src/lib/socket.js:42 | The snapshot lists one value per key, in key order. |
| Server.PresenceKey | backend/src/lib/socket.js:144-146 | The presence key deleted on disconnect is the handshake's user id, or "undefined" when there was none. |
| Server.WithFlag | backend/src/lib/socket.js:74-79 | Setting one record's call flag keeps the table's keys and that record's socket and peer ids, and leaves every other record unchanged. |
| Server.FirstOtherInCall | backend/src/lib/socket.js:153-160 | The scan finds nothing iff no record other than the sender is in a call. Otherwise it returns such a record, with none before it in table order. |
| Server.FirstOtherAt | backend/src/lib/socket.js:153-160 | The scan's answer is the key at the first position whose record is another one in a call, and nothing when no position has one. |
| Server.Partner | backend/src/lib/socket.js:150-161 | A disconnecting sender ends a call only when its own record is in a call. Then the record it ends is the scan's answer: the first other in-call record in table order, and none only when there is no other. |
| Server.Coordinator.Snapshot | backend/src/lib/socket.js:89 | `users-list` carries every record in table order, each under its own socket id. |
| Server.Coordinator.ReceiverSocketId | backend/src/lib/socket.js:19-21 | A user id is answered iff it is in the presence table, with its socket id. |
| Server.Coordinator.constructor | backend/src/lib/socket.js:23-26 | Both tables start empty, with no live connection. |
| Server.Coordinator.Connect | backend/src/lib/socket.js:28-53 | Remembers the connection's handshake user id. Inserts `{id, null, false}` last, or in place when the id is present. Maps the user id to the socket, and makes `getReceiverSocketId` answer it, only when the id is truthy. Emits online users to all, the snapshot to the newcomer and `user-joined` to the others. |
| Server.Coordinator.RegisterPeer | backend/src/lib/socket.js:55-68 | For a known sender: only its peer id changes, its call flag is kept, and `peer-registered` with `inCall: false` goes to all. For an unknown sender: nothing changes and nothing is emitted. |
| Server.Coordinator.InitiateCall | backend/src/lib/socket.js:70-97 | Succeeds iff both records exist and neither is in a call. Then both flags are set, nothing else changes, one `incoming-call` naming the caller goes to the target's room and the new snapshot goes to all. Otherwise no record changes and only `call-failed` with the busy reason goes to the caller. |
| Server.Coordinator.AcceptCall | backend/src/lib/socket.js:99-104 | Changes no table. Relays exactly one `call-accepted`, carrying the answerer's socket id, to the caller's room. |
| Server.Coordinator.RejectCall | backend/src/lib/socket.js:106-123 | When both records exist: exactly those two flags are cleared, one `call-rejected` goes to the caller's room and the snapshot goes to all. Otherwise nothing changes and nothing is emitted. |
| Server.Coordinator.EndCall | backend/src/lib/socket.js:125-142 | When both records exist: exactly those two flags are cleared, whether or not they were paired, one `call-ended` goes to the named room and the snapshot goes to all. Otherwise nothing changes and nothing is emitted. |
| Server.Coordinator.EndFirstOtherCall | backend/src/lib/socket.js:153-160 | The loop with `break` clears exactly the record that `FirstOtherInCall` names, and no other. |
| Server.Coordinator.RemovePresence | backend/src/lib/socket.js:146 | Removes the one presence key, keeping the order of the others. |
| Server.Coordinator.RemoveConnection | backend/src/lib/socket.js:163 | Removes the one record. No later snapshot contains its socket id. |
| Server.Coordinator.Disconnect | backend/src/lib/socket.js:144-170 | Always removes the sender's record and the presence key of the user id its own handshake carried. Clears only the partner's flag, and sends that record alone `call-ended`, where the partner is the first other in-call record and exists only if the sender was in a call. Every other record is unchanged. The final snapshot never contains the departed socket id. |
| UserList.Joined | frontend/src/pages/VideoCallPage.jsx:65-75 | Appends the user iff no entry has its socket id. Otherwise the list is unchanged. |
| UserList.JoinedKeepsIdsDistinct | frontend/src/pages/VideoCallPage.jsx:65-75 | A list with distinct socket ids stays distinct, grows by at most one, keeps every entry and then has the joined id. |
| UserList.Left | frontend/src/pages/VideoCallPage.jsx:77-83 | Keeps exactly the entries with another socket id, so none with the removed id remains. |
| UserList.LeftDistributes | frontend/src/pages/VideoCallPage.jsx:77-83 | Filtering distributes over concatenation, so kept entries stay in their original order. |
| UserList.LeftWithoutIdIsIdentity | frontend/src/pages/VideoCallPage.jsx:77-83 | A list without the id is returned unchanged. |
| UserList.LeftKeepsIdsDistinct | frontend/src/pages/VideoCallPage.jsx:77-83 | Removing keeps socket ids distinct. |
| UserList.Replaced | frontend/src/pages/VideoCallPage.jsx:85-89 | The length and every socket id are kept. Entries with the announced id become the announced record, and all others are unchanged. |
| UserList.ReplacedIdempotent | frontend/src/pages/VideoCallPage.jsx:85-89 | Applying the same `peer-registered` twice is applying it once. The socket ids stay distinct iff they were. |
| UserList.EntryKeys | frontend/src/pages/VideoCallPage.jsx:427-432 | The Map's keys are each socket id of the list once, and only those. |
| UserList.EntryKeysAppend | frontend/src/pages/VideoCallPage.jsx:427-432 | Each further entry sets its socket id as `Map.set` does: a new id goes last and a present id keeps its place, so the keys come in order of first occurrence. |
| UserList.EntryMap | frontend/src/pages/VideoCallPage.jsx:427-432 | The Map holds exactly the list's socket ids. Each maps to an entry of the list carrying that id. |
| UserList.EntryMapKeepsLast | frontend/src/pages/VideoCallPage.jsx:427-432 | A later entry with the same socket id overwrites an earlier one in the Map. |
| UserList.Dedup | frontend/src/pages/VideoCallPage.jsx:427-433 | The Map round trip leaves one entry per socket id, no longer than the list, with the same set of ids. Each entry kept is the last one of the list with its id. |
| UserList.DedupOfDistinctIsIdentity | frontend/src/pages/VideoCallPage.jsx:427-433 | On a list with distinct socket ids the Map round trip changes nothing. |
| UserList.Callable | frontend/src/pages/VideoCallPage.jsx:427-433 | The displayed list omits the page's own socket id, has one entry per socket id, holds only entries of the state list and shows every other socket id the list has. |
| UserList.CallDisabled | frontend/src/pages/VideoCallPage.jsx:447-449 | The call button is disabled iff the user is in a call or its peer id is null, undefined or empty. |
| UserList.RegisteredPeerLooksCallable | backend/src/lib/socket.js:62-66 | After a page applies `peer-registered` with a non-empty peer id, that user's button is enabled, even while the server has it in a call. |
| Client.CallPage.CallableUsers | frontend/src/pages/VideoCallPage.jsx:427-433 | The page never offers to call itself and lists each socket id once. |
| Client.CallPage.constructor | frontend/src/pages/VideoCallPage.jsx:25-36 | The page starts idle, with nothing held and empty ids. |
| Client.CallPage.OnConnect | frontend/src/pages/VideoCallPage.jsx:55-58 | Remembers its socket id. |
| Client.CallPage.OnPeerOpen | frontend/src/pages/VideoCallPage.jsx:103-107 | Stores the peer id and handle, and sends exactly one `register-peer` with that id. |
| Client.CallPage.OnUsersList | frontend/src/pages/VideoCallPage.jsx:60-63 | The server snapshot replaces the list. |
| Client.CallPage.OnUserJoined | frontend/src/pages/VideoCallPage.jsx:65-75 | The list becomes `Joined` of the old list, and nothing else changes. |
| Client.CallPage.OnUserLeft | frontend/src/pages/VideoCallPage.jsx:77-83 | The list becomes `Left` of the old list, and nothing else changes. |
| Client.CallPage.OnPeerRegistered | frontend/src/pages/VideoCallPage.jsx:85-89 | The list becomes `Replaced` of the old list, and nothing else changes. |
| Client.CallPage.OnIncomingCall | frontend/src/pages/VideoCallPage.jsx:91-95 | The state becomes incoming with the invitation stored. |
| Client.CallPage.OnCallAccepted | frontend/src/pages/VideoCallPage.jsx:110-113 | Once the peer is open: the state becomes connected to the answerer's socket. Before then the event is dropped. |
| Client.CallPage.OnMediaReady | frontend/src/pages/VideoCallPage.jsx:115-125 | The local stream and the media connection are held. |
| Client.CallPage.OnRemoteStream | frontend/src/pages/VideoCallPage.jsx:126-131 | The remote stream is held. |
| Client.CallPage.OnCallRejected | frontend/src/pages/VideoCallPage.jsx:168-172 | Back to idle, with the invitation cleared. |
| Client.CallPage.OnCallFailed | frontend/src/pages/VideoCallPage.jsx:174-177 | Back to idle. Everything else is kept. |
| Client.CallPage.OnCallEnded | frontend/src/pages/VideoCallPage.jsx:179-181 | Hangs up as `endCall` does. |
| Client.CallPage.InitiateCall | frontend/src/pages/VideoCallPage.jsx:192-202 | Without a peer or a socket: no change and no request. Otherwise: calling the target's socket, with exactly one `initiate-call` carrying the page's peer id. |
| Client.CallPage.AcceptCall | frontend/src/pages/VideoCallPage.jsx:204-216 | Without a socket or a pending invitation: no change and no request. Otherwise: connected to the caller, invitation cleared, exactly one `accept-call`. With the page showing an incoming call it is never a no-op. |
| Client.CallPage.RejectCall | frontend/src/pages/VideoCallPage.jsx:218-227 | Without a socket or a pending invitation: no change and no request. Otherwise: idle, invitation cleared, exactly one `reject-call` to the caller. With the page showing an incoming call it is never a no-op. |
| Client.CallPage.EndCall | frontend/src/pages/VideoCallPage.jsx:229-255 | Always ends idle, with call, streams, invitation and other socket id cleared. Sends `end-call` iff there is a socket and the other socket id was non-empty. |
| Protocol.SelfInviteReachesNobody | backend/src/lib/socket.js:82-86 | A self-call's invitation reaches no connection. |
| Protocol.SelfCallMarksOneRecord | backend/src/lib/socket.js:70-79 | A self-call passes the busy check and sets one flag only. |
| Protocol.DisconnectFindsTheOnlyCounterpart | backend/src/lib/socket.js:150-160 | When exactly two records are in a call, the disconnect of one ends the other. |
| Protocol.DisconnectEndsFirstInTableOrder | backend/src/lib/socket.js:153-159 | With a stray in-call record earlier in table order, disconnect ends that record and not the counterpart. |
| Protocol.RaceForOneTarget | backend/src/lib/socket.js:70-97 | Of two callers racing for one idle target, the first handled wins and the second gets `call-failed`. |
| Protocol.ThreeConnected | backend/src/lib/socket.js:28-37 | Three connections give three idle records in connection order. |
| Protocol.CallStarted | backend/src/lib/socket.js:70-93 | After A calls B, B's room gets the invitation and the snapshot shows A and B busy and C free. |
| Protocol.BusyWhileInCall | backend/src/lib/socket.js:70-104 | While A and B are in a call, C calling A gets `call-failed` with the busy reason. |
| Protocol.ReadyPage | frontend/src/pages/VideoCallPage.jsx:103-107 | A page whose peer opened is idle and sends its registration. |
| Protocol.TwoRegistered | backend/src/lib/socket.js:55-68 | After two connections register their peers, both records carry their peer ids and are free. |
| Protocol.Ringing | frontend/src/pages/VideoCallPage.jsx:192-202 | A's call request, relayed by the server, leaves A calling, B showing the invitation and both records busy. |
| Protocol.CallEstablished | frontend/src/pages/VideoCallPage.jsx:204-216 | B's acceptance, relayed by the server, leaves both pages connected to each other. |
| Protocol.TwoPartyCall | frontend/src/pages/VideoCallPage.jsx:229-255 | After a full call and A's hang-up, both pages are idle with nothing held and both records are free. B's hang-up echoes one `end-call`, after which A's sends nothing. The echo comes from `OnCallEnded` reading current state (see Left out); the page as written sends none. |

## Left out

- Transport: the HTTP and Express server, Socket.IO construction and the CORS configuration (backend/src/lib/socket.js:1-17). Emissions are returned as values. Their delivery is only described by `Recipients`.
- Logging: all `console.log`, `console.error` and `alert` calls.
- PeerJS and `getUserMedia`. The model does not open a peer, call, answer, close, destroy or acquire media. Streams, the media connection and the peer are handles that are held or cleared, and each acquisition is one handler call (`OnMediaReady`, `OnRemoteStream`). A failed media acquisition is not modelled.
- Client.CallPage.EndCall: does not model `currentCall.close()`, stopping the local tracks or `peer.destroy()` in `cleanupMedia`. The peer handle stays set after a hang-up.
- Track toggling (`toggleVideo`, `toggleAudio`), rendering, video element refs, `incomingCallRef` and the effect's mount and unmount wiring.
- Client.CallPage.OnCallEnded: it reads the page's current state. The code registers its handler once at mount, so the `endCall` it calls sees the state from mount time: an empty other socket id and no call or stream. As written, the handler therefore sends no `end-call` and releases nothing, though it still resets the state. The model states the hang-up the handler is evidently meant to perform.
- `bufferedCallAccepted`: it is never set to a value, so it is dead code.
- The socket of the auth store is a constant of the page, `hasSocket`. Its changes over the page's lifetime are not modelled.
- Concurrency between connections: each handler is one atomic step. Node runs handlers to completion, so this is the code's behaviour.
- JavaScript object key order for array-index-like user ids, which `Object.keys` lists first, and prototype keys such as `__proto__` in `userSocketMap`. The presence table is ordered by insertion only.
- Payloads are modelled as strings. A peer id or user id of another JSON type, and a missing field in a request's payload, are not modelled.
