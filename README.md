# Room coordination of a WebRTC signalling relay

The relay is a small WebSocket server. Browsers use it to find each other
and to exchange the SDP offers/answers and ICE candidates that set up a
peer-to-peer video call. No media passes through it. This project models
the server's room coordination layer and proves properties of that model:

- **Participant** (`participant.dfy`, module `Participants`). An immutable
  pair of a client id and a WebSocket session. A session is represented by
  its session id, and two participants are the same connection exactly when
  their session ids agree.
- **Room** (`room.dfy`, module `Rooms`). A class with an id and an ordered
  participant list that its methods change in place. Adding a session that
  is already present does nothing. Removal is by session id. The head of
  the list is the participant that must make the first offer. The list
  operations are specified by the value-level functions `Added`, `Removed`,
  `HasSession` and `First`, and the lemmas about them. The invariant is that
  no session is listed twice.
- **RoomRegistry** (`room_registry.dfy`, module `Registry`). A class holding
  the map from room id to room. It offers get-or-create, lookup and
  remove-if-empty. `Members(id)` is its abstract view: the participant list
  stored under an id, or none.
- **SignalMessage** (`signal_message.dfy`, module `Messages`). The message
  shape (`type`, `roomId`, `sender`, `target`, `payload`, all optional), the
  server's own messages, and the outbound traffic.
- **SignalingHandler** (`signaling_handler.dfy`, module `Signaling`). The
  protocol engine:
  - a pure classification of each decoded message (`Classify`);
  - pure definitions of who receives what (`JoinReplies`, `ReadyBroadcast`,
    `Relay`), with lemmas about them;
  - a class whose methods change the session attributes, the registry and an
    outbox of sent messages.

  Each handler entry point is proved against an effect predicate:
  - `JoinEffect` for a join;
  - `ForwardEffect` for sdp/ice;
  - `RejectEffect` for an error reply;
  - `CloseEffect` for a disconnect.

  Each entry point is also proved to preserve the registry invariant and the
  property that no stored room is empty.

Modelling choices:
- The transport is represented by data:
  - A session is its id.
  - The set of sessions whose connection is still open is a parameter of
    each event.
  - Sending a message appends an `Outbound(to, frame)` to `outbox`. A frame
    is either a server-built `SignalMessage` or the verbatim inbound text.
- JSON decoding is represented by its outcome,
  `Parsed = Ok(msg) | Malformed | NullDocument`, which is passed in beside
  the raw text.
- The random client id generated for a join without `sender` is a
  caller-supplied `freshId`.
- The human-readable texts of the server's messages are represented by the
  `Notice` datatype. An unsupported type keeps the type name.

Behaviour the model keeps as the code has it:
- A session that joins a second room is re-tagged with the second room but
  stays listed in the first. On disconnect only the tagged room is cleaned.
  `JoinTwoRoomsThenClose` shows that the first room still lists the closed
  session afterwards.
- A repeated join to the same room changes no membership but sends
  `joined` again, and `ready` again when the room has two or more members
  (`JoinSameRoomTwice`).
- The `ready` broadcast goes to every member whether or not its connection
  is open. Forwarding and `peer-left` go only to open members.
- The sdp/ice check is only that the sender is a member of the room named
  in the message. A stricter relay would also require the named room to be
  the session's tagged room. This code does not, and the model follows the
  code.
- A text that is the JSON literal `null` decodes without error to no
  message. The next step reads its fields and fails, so the handler ends
  with an exception. No reply is sent and nothing changes (`Abort`, see
  "## Findings").
- The initiator test in the `ready` loop is object identity with the
  room's first participant. Sessions in a room are unique, so the list
  holds no repeated participant. The model therefore compares values, and
  `ReadyHasOneInitiator` proves that exactly index 0 is flagged.

## Model

| member | source | states |
|---|---|---|
| Participants.SessionIdentity | src/main/java/com/otavio/webrtc/model/Participant.java:11-30 | the identity test is session-id equality: it ignores client ids, is reflexive and symmetric; the getters return the constructor arguments, which determine the participant |
| Rooms.AddedUnique | src/main/java/com/otavio/webrtc/model/Room.java:26-31 | adding keeps the sessions of a room unique |
| Rooms.AddedContains | src/main/java/com/otavio/webrtc/model/Room.java:25-32 | after an add the participant's session is in the room, which is therefore non-empty |
| Rooms.AddedKeepsPrefix | src/main/java/com/otavio/webrtc/model/Room.java:25-32 | an add keeps the old list as a prefix, grows it by at most one, and never changes the initiator of a non-empty room |
| Rooms.RemovedConcat | src/main/java/com/otavio/webrtc/model/Room.java:34-37 | removal filters each part of a concatenation and keeps the parts in order |
| Rooms.RemovedSingleton | src/main/java/com/otavio/webrtc/model/Room.java:34-37 | a one-element list loses its element exactly when it is on the removed session |
| Rooms.RemovedMembers | src/main/java/com/otavio/webrtc/model/Room.java:34-37 | a participant survives removal exactly when it was listed and is on another session; the list never grows |
| Rooms.RemovedHasNoSession | src/main/java/com/otavio/webrtc/model/Room.java:34-37 | after removal no participant is on the removed session |
| Rooms.RemovedAbsent | src/main/java/com/otavio/webrtc/model/Room.java:34-37 | removing a session that is not listed leaves the list unchanged |
| Rooms.RemovedIdempotent | src/main/java/com/otavio/webrtc/model/Room.java:34-37 | removing twice equals removing once |
| Rooms.RemovedUnique | src/main/java/com/otavio/webrtc/model/Room.java:34-37 | removal keeps the sessions of a room unique |
| Rooms.RemovedLength | src/main/java/com/otavio/webrtc/model/Room.java:34-37 | with unique sessions, removal shortens the list by one when the session is present and not at all otherwise |
| Rooms.RemovedKeepsFirst | src/main/java/com/otavio/webrtc/model/Room.java:34-46 | the initiator stays the same while it is not the one removed |
| Rooms.Room.constructor | src/main/java/com/otavio/webrtc/model/Room.java:17-19 | a new room has the given id and no participants |
| Rooms.Room.AddParticipant | src/main/java/com/otavio/webrtc/model/Room.java:25-32 | the list is unchanged if the session is already present, otherwise the participant is appended; uniqueness is kept |
| Rooms.Room.RemoveParticipant | src/main/java/com/otavio/webrtc/model/Room.java:34-37 | every entry on the session is dropped, the others keep their order; uniqueness is kept |
| Rooms.Room.GetParticipants | src/main/java/com/otavio/webrtc/model/Room.java:39-41 | the result is the room's participant list in join order |
| Rooms.Room.FirstParticipant | src/main/java/com/otavio/webrtc/model/Room.java:43-46 | none exactly when the room is empty, otherwise the participant at index 0 |
| Rooms.Room.Size | src/main/java/com/otavio/webrtc/model/Room.java:56-58 | the size is the length of the participant list |
| Rooms.Room.IsEmpty | src/main/java/com/otavio/webrtc/model/Room.java:48-50 | empty exactly when the size is zero |
| Rooms.Room.Contains | src/main/java/com/otavio/webrtc/model/Room.java:52-54 | true exactly when some participant is on the given session |
| Registry.RoomRegistry.constructor | src/main/java/com/otavio/webrtc/service/RoomRegistry.java:16 | the registry starts with no rooms |
| Registry.RoomRegistry.GetOrCreate | src/main/java/com/otavio/webrtc/service/RoomRegistry.java:18-20 | a present key yields its room and leaves the map unchanged; an absent key gets exactly one new empty room with that id and no other key changes |
| Registry.RoomRegistry.Find | src/main/java/com/otavio/webrtc/service/RoomRegistry.java:22-24 | no state change; present exactly when the id is a key, and then the stored room |
| Registry.RoomRegistry.RemoveIfEmpty | src/main/java/com/otavio/webrtc/service/RoomRegistry.java:26-32 | the key is deleted exactly when its room exists and is empty; otherwise the map is unchanged, and no other key changes in any case |
| Registry.GetOrCreateTwice | src/main/java/com/otavio/webrtc/service/RoomRegistry.java:19 | two successive get-or-create calls with one id return the same room object, the one stored under the id |
| Signaling.ClassifyRejects | src/main/java/com/otavio/webrtc/controller/SignalingHandler.java:57-76 | a message is rejected exactly when it is undecodable, lacks type or roomId, or has a type other than join/sdp/ice, and the rejection names that reason |
| Signaling.ClassifyAccepts | src/main/java/com/otavio/webrtc/controller/SignalingHandler.java:72-74 | join and sdp/ice are dispatched exactly for those types with a room id, carrying the room id and sender unchanged |
| Signaling.OnlyNullDocumentAborts | src/main/java/com/otavio/webrtc/controller/SignalingHandler.java:57-70 | as written, a `null` document is exactly the input that ends the handler without any reply |
| Signaling.ClassifyGuarded | src/main/java/com/otavio/webrtc/controller/SignalingHandler.java:57-76 | the dispatch with a null-message guard agrees with the code on every input except the `null` document |
| Signaling.GuardedAnswersEveryInput | src/main/java/com/otavio/webrtc/controller/SignalingHandler.java:57-76 | with the guard no input aborts, and the `null` document gets the missing-fields error |
| Signaling.ClientIdFor | src/main/java/com/otavio/webrtc/controller/SignalingHandler.java:81 | the client id is the sender when present, otherwise the fresh id |
| Signaling.ReadyBroadcastAt | src/main/java/com/otavio/webrtc/controller/SignalingHandler.java:122-131 | the ready broadcast has one message per participant, the k-th to the k-th participant, flagged when it is the initiator |
| Signaling.ReadyHasOneInitiator | src/main/java/com/otavio/webrtc/controller/SignalingHandler.java:122-131 | in a non-empty room with unique sessions, each participant gets a ready in order and only index 0 is flagged initiator |
| Signaling.ReadyDeliveries | src/main/java/com/otavio/webrtc/controller/SignalingHandler.java:124-130 | with unique sessions every member receives exactly one ready and no other session receives any |
| Signaling.RelayTargets | src/main/java/com/otavio/webrtc/controller/SignalingHandler.java:115-119 | every relayed message is the given frame to an open member other than the excepted session, and the excepted session receives nothing |
| Signaling.RelayDeliveries | src/main/java/com/otavio/webrtc/controller/SignalingHandler.java:138-147 | with unique sessions each open member other than the excepted one receives exactly one message, and no other session receives any |
| Signaling.JoinRepliesSpec | src/main/java/com/otavio/webrtc/controller/SignalingHandler.java:90-104 | the first reply is joined with the room size; a lone joiner then gets only waiting; otherwise each member gets exactly one ready and only the first member is flagged |
| Signaling.SignalingHandler.constructor | src/main/java/com/otavio/webrtc/controller/SignalingHandler.java:37-39 | the handler uses the given registry and starts with no session attributes and nothing sent |
| Signaling.SignalingHandler.HandleTextMessage | src/main/java/com/otavio/webrtc/controller/SignalingHandler.java:54-77 | a rejected message gets exactly one error with no room id and changes nothing else; a `null` document sends and changes nothing; join and sdp/ice have the effects of their handlers; the registry invariant and the absence of empty rooms are kept |
| Signaling.SignalingHandler.HandleJoin | src/main/java/com/otavio/webrtc/controller/SignalingHandler.java:79-105 | the session is tagged with the room and client id; the room, created if unknown, then holds the joiner and no other room changes; the join replies for the new list are sent |
| Signaling.SignalingHandler.EnterRoom | src/main/java/com/otavio/webrtc/controller/SignalingHandler.java:86-88 | the room, existing or new, is stored under its id and holds the old list plus the participant; other rooms are unchanged |
| Signaling.SignalingHandler.AddToRoom | src/main/java/com/otavio/webrtc/controller/SignalingHandler.java:87-88 | adding to one stored room changes no other room's list |
| Signaling.SignalingHandler.SendJoinReplies | src/main/java/com/otavio/webrtc/controller/SignalingHandler.java:90-104 | the outbox grows by the join replies for the room's list |
| Signaling.SignalingHandler.ForwardToRoom | src/main/java/com/otavio/webrtc/controller/SignalingHandler.java:107-120 | an unknown room or a non-member sender gets one error; otherwise the raw text goes to every other open member; no room is created or changed |
| Signaling.SignalingHandler.NotifyReady | src/main/java/com/otavio/webrtc/controller/SignalingHandler.java:122-131 | one ready per participant in list order, flagged for the room's first participant, open or not |
| Signaling.SignalingHandler.NotifyPeerLeft | src/main/java/com/otavio/webrtc/controller/SignalingHandler.java:133-148 | peer-left to every open participant other than the departed session |
| Signaling.SignalingHandler.SendToOthers | src/main/java/com/otavio/webrtc/controller/SignalingHandler.java:115-119 | the frame is sent, in list order, to exactly the open participants not on the excepted session |
| Signaling.SignalingHandler.AfterConnectionClosed | src/main/java/com/otavio/webrtc/controller/SignalingHandler.java:41-52 | without a tag or with an unknown room nothing changes; otherwise the session leaves the tagged room, the remaining open members get peer-left, the room is evicted if empty, no other room changes, and the tag stays |
| Signaling.SignalingHandler.Depart | src/main/java/com/otavio/webrtc/controller/SignalingHandler.java:45-50 | the room's list loses the session and disappears from the registry if empty; peer-left goes to the remaining open members |
| Signaling.SignalingHandler.LeaveRoom | src/main/java/com/otavio/webrtc/controller/SignalingHandler.java:47 | removing from one stored room changes no other room's list |
| Signaling.SignalingHandler.SendError | src/main/java/com/otavio/webrtc/controller/SignalingHandler.java:150-158 | exactly one error message, with no room id, to the session |
| Signaling.JoinTwoRoomsThenClose | src/main/java/com/otavio/webrtc/controller/SignalingHandler.java:41-105 | after joining two rooms and disconnecting, the tag names the second room, the second room no longer lists the session, and the first room still does |
| Signaling.JoinSameRoomTwice | src/main/java/com/otavio/webrtc/controller/SignalingHandler.java:79-105 | after two joins the room holds exactly the list one join gives, the session is in it, and the full join replies are sent twice |

## Left out

- JSON decoding and encoding of messages. A decode is given as a parse
  result and a send as a datatype value, so `SignalMessage.java` is only the
  shape of the message datatype. Its `target` field is carried but never
  read.
- The human-readable texts of replies. They are represented by the `Notice`
  datatype.
- Failure of `sendMessage` with an I/O error. In `handleJoin`,
  `forwardToRoom` and `notifyReady` the exception ends the handler, and
  the sends after the failed one are skipped. In `notifyPeerLeft` and
  `sendError` it is caught and logged. The model assumes every send
  succeeds.
- Logging, and the randomness of the generated client id. The generated id
  is the `freshId` parameter.
- Concurrency: the thread safety of the concurrent map and of the
  copy-on-write list, and interleaved events from several sessions. Every
  event is modelled as one sequential step.
- Rooms.Room.GetParticipants: the source returns a read-only live view of
  the list, while the model returns its current value. Every caller
  iterates the view at once, so the two cannot be told apart.
- The Spring bootstrap and endpoint registration (`VideoChatApplication.java`,
  `WebSocketConfig.java`) and the browser client (`webrtc.js`). They are not
  part of this model.

## Findings

| source | as written | input that shows it | evidently intended | confidence | as-written member | corrected member |
|---|---|---|---|---|---|---|
| src/main/java/com/otavio/webrtc/controller/SignalingHandler.java:57-70 | only a decoding exception is caught, and the result is then read without a null check | the text `null`: it decodes to a null message, and reading its room id fails, so the handler ends with no reply | a null message is refused with an error, like a message without `type` and `roomId`, as the comment on the decoding guard intends | medium, not executed; rests on the decoder returning null for a top-level `null` | Signaling.OnlyNullDocumentAborts | Signaling.GuardedAnswersEveryInput |

The handler methods keep the code's dispatch, `Classify`. `HandleTextMessage`
therefore states that the `null` document sends and changes nothing.
`ClassifyGuarded` is the corrected dispatch, and `GuardedAnswersEveryInput`
proves that with it every input is answered.
