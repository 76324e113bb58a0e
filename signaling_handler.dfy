/**
 * The signalling protocol engine: it validates each decoded message,
 * dispatches on its type, drives room membership, and decides who receives
 * what. Outbound traffic is appended to an outbox; the set of sessions whose
 * connection is still open is supplied by the transport with each event.
 */
module Signaling {

  import opened Options
  import opened Participants
  import opened Rooms
  import opened Registry
  import opened Messages

  // ---------------------------------------------------------------------------
  // Validation and dispatch

  /** What an inbound message asks for, after validation. */
  datatype Action =
    | JoinRoom(roomId: string, sender: Option<string>)
    | Forward(roomId: string)
    | Reject(notice: Notice)
    | Abort

  /**
   * Undecodable text, then missing `type`/`roomId`, then a switch on `type`.
   * A `null` document passes the decoding guard and fails on the first field
   * access: the handler ends with an exception and answers nothing (`Abort`).
   */
  function Classify(parsed: Parsed): Action {
    match parsed
    case Malformed => Reject(InvalidJson)
    case NullDocument => Abort
    case Ok(m) =>
      if m.roomId.None? || m.messageType.None? then Reject(NeedsTypeAndRoomId)
      else if m.messageType.value == "join" then JoinRoom(m.roomId.value, m.sender)
      else if m.messageType.value == "sdp" || m.messageType.value == "ice" then Forward(m.roomId.value)
      else Reject(UnsupportedType(m.messageType.value))
  }

  /** The message types the server acts on. */
  predicate Supported(t: string) {
    t == "join" || t == "sdp" || t == "ice"
  }

  /**
   * A decoded envelope is rejected exactly when it lacks `type` or `roomId`,
   * or has a type other than join, sdp and ice; undecodable text is rejected
   * too. The rejection names the reason, and an unsupported type is named in it.
   */
  lemma ClassifyRejects(parsed: Parsed)
    ensures Classify(parsed).Reject? <==>
      (parsed.Malformed? ||
       (parsed.Ok? && (parsed.msg.roomId.None? || parsed.msg.messageType.None? ||
                       !Supported(parsed.msg.messageType.value))))
    ensures parsed.Malformed? ==> Classify(parsed) == Reject(InvalidJson)
    ensures parsed.Ok? && (parsed.msg.roomId.None? || parsed.msg.messageType.None?) ==>
      Classify(parsed) == Reject(NeedsTypeAndRoomId)
    ensures (parsed.Ok? && parsed.msg.roomId.Some? && parsed.msg.messageType.Some? &&
             !Supported(parsed.msg.messageType.value)) ==>
      Classify(parsed) == Reject(UnsupportedType(parsed.msg.messageType.value))
  {
  }

  /** An accepted message carries its room id (and, for a join, its sender hint) unchanged. */
  lemma ClassifyAccepts(parsed: Parsed)
    ensures Classify(parsed).JoinRoom? <==>
      parsed.Ok? && parsed.msg.roomId.Some? && parsed.msg.messageType == Some("join")
    ensures Classify(parsed).Forward? <==>
      parsed.Ok? && parsed.msg.roomId.Some? &&
      (parsed.msg.messageType == Some("sdp") || parsed.msg.messageType == Some("ice"))
    ensures Classify(parsed).JoinRoom? ==>
      Classify(parsed) == JoinRoom(parsed.msg.roomId.value, parsed.msg.sender)
    ensures Classify(parsed).Forward? ==> Classify(parsed) == Forward(parsed.msg.roomId.value)
  {
  }

  /**
   * As written, the `null` document is the one input that gets no reply:
   * every other input gets an error or is acted on.
   */
  lemma OnlyNullDocumentAborts(parsed: Parsed)
    ensures Classify(parsed) == Abort <==> parsed == NullDocument
  {
  }

  /**
   * The dispatch with the missing guard added: a `null` document is refused
   * like an envelope without `type` and `roomId`; every other input is
   * classified as before.
   */
  function ClassifyGuarded(parsed: Parsed): (action: Action)
    ensures parsed != NullDocument ==> action == Classify(parsed)
  {
    if parsed.NullDocument? then Reject(NeedsTypeAndRoomId) else Classify(parsed)
  }

  /** With the guard, every input is answered: no input aborts, and the `null` document gets an error. */
  lemma GuardedAnswersEveryInput(parsed: Parsed)
    ensures ClassifyGuarded(parsed) != Abort
    ensures ClassifyGuarded(parsed).Reject? <==> Classify(parsed).Reject? || parsed == NullDocument
    ensures ClassifyGuarded(NullDocument) == Reject(NeedsTypeAndRoomId)
  {
  }

  // ---------------------------------------------------------------------------
  // Who receives what

  /** The client id recorded for a join: the sender hint when present, otherwise the fresh id. */
  function ClientIdFor(sender: Option<string>, freshId: string): (clientId: string)
    ensures sender.Some? ==> clientId == sender.value
    ensures sender.None? ==> clientId == freshId
  {
    match sender
    case Some(s) => s
    case None => freshId
  }

  /** One `ready` per participant in list order, flagged initiator when it is `initiator`. */
  function ReadyBroadcast(roomId: string, initiator: Option<Participant>, ps: seq<Participant>): seq<Outbound>
    decreases |ps|
  {
    if ps == [] then []
    else
      var last := ps[|ps| - 1];
      ReadyBroadcast(roomId, initiator, ps[..|ps| - 1]) +
      [Outbound(last.session, Encoded(ReadyMessage(roomId, initiator == Some(last))))]
  }

  /** `frame` to every participant that is open and not on session `except`, in list order. */
  function Relay(ps: seq<Participant>, except: SessionId, open: set<SessionId>, frame: Frame): seq<Outbound>
    decreases |ps|
  {
    if ps == [] then []
    else
      var last := ps[|ps| - 1];
      Relay(ps[..|ps| - 1], except, open, frame) +
      (if !last.IsSameSession(except) && last.session in open then [Outbound(last.session, frame)] else [])
  }

  /**
   * The replies to a join, given the room's list `ps` after the add: `joined`
   * with the room size to the joiner, then `waiting` to the joiner when it is
   * alone, or a `ready` broadcast to the whole room otherwise.
   */
  function JoinReplies(roomId: string, joiner: SessionId, ps: seq<Participant>): seq<Outbound> {
    [Outbound(joiner, Encoded(JoinedMessage(roomId, |ps|)))] +
    if |ps| == 1 then [Outbound(joiner, Encoded(WaitingMessage(roomId)))]
    else ReadyBroadcast(roomId, First(ps), ps)
  }

  // ---------------------------------------------------------------------------
  // Properties of the replies

  /** The ready broadcast has one entry per participant, the k-th to the k-th participant. */
  lemma {:induction false} ReadyBroadcastAt(roomId: string, initiator: Option<Participant>, ps: seq<Participant>, k: nat)
    requires k < |ps|
    ensures |ReadyBroadcast(roomId, initiator, ps)| == |ps|
    ensures ReadyBroadcast(roomId, initiator, ps)[k] ==
      Outbound(ps[k].session, Encoded(ReadyMessage(roomId, initiator == Some(ps[k]))))
    decreases |ps|
  {
    var init := ps[..|ps| - 1];
    if k < |init| {
      ReadyBroadcastAt(roomId, initiator, init, k);
    } else if init != [] {
      ReadyBroadcastAt(roomId, initiator, init, 0);
    }
  }

  /**
   * In a room with unique sessions, the ready broadcast reaches every
   * participant in order, and exactly one of them, the first, is flagged
   * as the initiator.
   */
  lemma ReadyHasOneInitiator(roomId: string, ps: seq<Participant>)
    requires UniqueSessions(ps) && ps != []
    ensures |ReadyBroadcast(roomId, First(ps), ps)| == |ps|
    ensures forall k :: 0 <= k < |ps| ==>
      ReadyBroadcast(roomId, First(ps), ps)[k] == Outbound(ps[k].session, Encoded(ReadyMessage(roomId, k == 0)))
  {
    ReadyBroadcastAt(roomId, First(ps), ps, 0);
    forall k | 0 <= k < |ps|
      ensures ReadyBroadcast(roomId, First(ps), ps)[k] == Outbound(ps[k].session, Encoded(ReadyMessage(roomId, k == 0)))
    {
      ReadyBroadcastAt(roomId, First(ps), ps, k);
      if k != 0 {
        assert ps[k].session != ps[0].session;
      }
    }
  }

  /** A participant list with unique sessions holds a given session at most once. */
  lemma UniqueInit(ps: seq<Participant>)
    requires UniqueSessions(ps) && ps != []
    ensures UniqueSessions(ps[..|ps| - 1])
    ensures !HasSession(ps[..|ps| - 1], ps[|ps| - 1].session)
  {
    var init := ps[..|ps| - 1];
    forall i | 0 <= i < |init| ensures !init[i].IsSameSession(ps[|ps| - 1].session) {
      assert init[i] == ps[i];
    }
  }

  /** Membership in a list splits into membership in its prefix and its last element. */
  lemma HasSessionSnoc(ps: seq<Participant>, s: SessionId)
    requires ps != []
    ensures HasSession(ps, s) <==> HasSession(ps[..|ps| - 1], s) || ps[|ps| - 1].IsSameSession(s)
  {
    var init := ps[..|ps| - 1];
    if HasSession(ps, s) && !ps[|ps| - 1].IsSameSession(s) {
      var i :| 0 <= i < |ps| && ps[i].IsSameSession(s);
      assert init[i] == ps[i];
    }
    if HasSession(init, s) {
      var i :| 0 <= i < |init| && init[i].IsSameSession(s);
      assert ps[i] == init[i];
    }
  }

  /** In a room with unique sessions every member receives exactly one `ready`, and nobody else any. */
  lemma {:induction false} ReadyDeliveries(roomId: string, initiator: Option<Participant>, ps: seq<Participant>, s: SessionId)
    requires UniqueSessions(ps)
    ensures Deliveries(ReadyBroadcast(roomId, initiator, ps), s) == if HasSession(ps, s) then 1 else 0
    decreases |ps|
  {
    if ps != [] {
      var init, last := ps[..|ps| - 1], ps[|ps| - 1];
      UniqueInit(ps);
      HasSessionSnoc(ps, s);
      ReadyDeliveries(roomId, initiator, init, s);
      var tail := [Outbound(last.session, Encoded(ReadyMessage(roomId, initiator == Some(last))))];
      DeliveriesConcat(ReadyBroadcast(roomId, initiator, init), tail, s);
      assert tail[..0] == [];
    }
  }

  /**
   * Every relayed message is `frame`, goes to a member of the list that is
   * open and is not `except`; the excepted session receives nothing.
   */
  lemma {:induction false} RelayTargets(ps: seq<Participant>, except: SessionId, open: set<SessionId>, frame: Frame)
    ensures forall o :: o in Relay(ps, except, open, frame) ==>
      o.to != except && o.to in open && o.frame == frame && HasSession(ps, o.to)
    ensures Deliveries(Relay(ps, except, open, frame), except) == 0
    decreases |ps|
  {
    if ps != [] {
      var init, last := ps[..|ps| - 1], ps[|ps| - 1];
      RelayTargets(init, except, open, frame);
      forall t | HasSession(init, t) ensures HasSession(ps, t) {
        HasSessionSnoc(ps, t);
      }
      HasSessionSnoc(ps, last.session);
      var tail := if !last.IsSameSession(except) && last.session in open then [Outbound(last.session, frame)] else [];
      DeliveriesConcat(Relay(init, except, open, frame), tail, except);
      assert tail != [] ==> tail[..0] == [];
    }
  }

  /**
   * In a room with unique sessions, each open member other than `except`
   * receives exactly one relayed message, and no other session any.
   */
  lemma {:induction false} RelayDeliveries(ps: seq<Participant>, except: SessionId, open: set<SessionId>, frame: Frame, s: SessionId)
    requires UniqueSessions(ps)
    ensures Deliveries(Relay(ps, except, open, frame), s) ==
      if s != except && s in open && HasSession(ps, s) then 1 else 0
    decreases |ps|
  {
    if ps != [] {
      var init, last := ps[..|ps| - 1], ps[|ps| - 1];
      UniqueInit(ps);
      HasSessionSnoc(ps, s);
      RelayDeliveries(init, except, open, frame, s);
      var tail := if !last.IsSameSession(except) && last.session in open then [Outbound(last.session, frame)] else [];
      DeliveriesConcat(Relay(init, except, open, frame), tail, s);
      assert tail != [] ==> tail[..0] == [];
    }
  }

  /**
   * The replies to a join: the first goes to the joiner and is `joined` with
   * the room size; a lone joiner then gets `waiting` and no `ready` is sent;
   * otherwise every member gets exactly one `ready`, the first member alone
   * flagged initiator, and the joined acknowledgement is the joiner's only
   * other message.
   */
  lemma JoinRepliesSpec(roomId: string, joiner: SessionId, ps: seq<Participant>)
    requires UniqueSessions(ps) && HasSession(ps, joiner)
    ensures var r := JoinReplies(roomId, joiner, ps);
      r[0] == Outbound(joiner, Encoded(JoinedMessage(roomId, |ps|))) &&
      (|ps| == 1 ==>
        ps[0].session == joiner &&
        r == [Outbound(joiner, Encoded(JoinedMessage(roomId, 1))), Outbound(joiner, Encoded(WaitingMessage(roomId)))]) &&
      (|ps| >= 2 ==>
        |r| == |ps| + 1 &&
        (forall k :: 0 <= k < |ps| ==> r[k + 1] == Outbound(ps[k].session, Encoded(ReadyMessage(roomId, k == 0)))) &&
        (forall s :: Deliveries(r[1..], s) == if HasSession(ps, s) then 1 else 0))
  {
    var r := JoinReplies(roomId, joiner, ps);
    if |ps| >= 2 {
      ReadyHasOneInitiator(roomId, ps);
      assert r[1..] == ReadyBroadcast(roomId, First(ps), ps);
      forall s ensures Deliveries(r[1..], s) == if HasSession(ps, s) then 1 else 0 {
        ReadyDeliveries(roomId, First(ps), ps, s);
      }
    }
  }

  // ---------------------------------------------------------------------------
  // The handler

  /** The attributes a join leaves on a session. */
  datatype SessionTag = SessionTag(roomId: string, clientId: string)

  /** The list of a room, given as its members before (none for an unknown room), once `p` has joined it. */
  function JoinedList(members: Option<seq<Participant>>, p: Participant): seq<Participant> {
    Added(ListOf(members), p)
  }

  class SignalingHandler {

    const registry: RoomRegistry
    var attributes: map<SessionId, SessionTag>
    var outbox: seq<Outbound>

    ghost predicate Valid()
      reads registry, registry.rooms.Values
    {
      registry.Valid()
    }

    /** No stored room is empty: a room that empties is evicted at once. */
    ghost predicate NoEmptyRooms()
      reads registry, registry.rooms.Values
    {
      forall k :: registry.Members(k) != Some([])
    }

    constructor (registry: RoomRegistry)
      ensures this.registry == registry && attributes == map[] && outbox == []
    {
      this.registry := registry;
      attributes := map[];
      outbox := [];
    }

    /** The room lists under every id but `roomId` are as they were. */
    twostate predicate OthersUnchanged(roomId: string)
      reads registry, registry.rooms.Values
    {
      forall k :: k != roomId ==> registry.Members(k) == old(registry.Members(k))
    }

    /** The registry holds the same rooms with the same lists. */
    twostate predicate RoomsUnchanged()
      reads registry, registry.rooms.Values
    {
      registry.rooms == old(registry.rooms) &&
      forall k :: registry.Members(k) == old(registry.Members(k))
    }

    /**
     * The effect of a join of `session` to `roomId` under `clientId`: the tag
     * is overwritten, the room (created if unknown) holds the joiner, no other
     * room changes, and the join replies are sent.
     */
    twostate predicate JoinEffect(session: SessionId, roomId: string, clientId: string)
      reads this, registry, registry.rooms.Values
    {
      attributes == old(attributes)[session := SessionTag(roomId, clientId)] &&
      registry.Members(roomId) == Some(JoinedList(old(registry.Members(roomId)), Participant(clientId, session))) &&
      OthersUnchanged(roomId) &&
      (roomId in old(registry.rooms) ==> registry.rooms == old(registry.rooms)) &&
      (roomId !in old(registry.rooms) ==>
        fresh(registry.rooms[roomId]) && registry.rooms == old(registry.rooms)[roomId := registry.rooms[roomId]]) &&
      outbox == old(outbox) + JoinReplies(roomId, session, JoinedList(old(registry.Members(roomId)), Participant(clientId, session)))
    }

    /**
     * The effect of an sdp/ice message: nothing but an error to the sender
     * unless the room exists and holds the sender; then the raw text to every
     * other open member. No room is created or changed either way.
     */
    twostate predicate ForwardEffect(sender: SessionId, roomId: string, raw: string, open: set<SessionId>)
      reads this, registry, registry.rooms.Values
    {
      attributes == old(attributes) &&
      RoomsUnchanged() &&
      if old(registry.Members(roomId)).Some? && HasSession(old(registry.Members(roomId)).value, sender)
      then outbox == old(outbox) + Relay(old(registry.Members(roomId)).value, sender, open, Verbatim(raw))
      else outbox == old(outbox) + [Outbound(sender, Encoded(ErrorMessage(MustJoinFirst)))]
    }

    /** The effect of a rejected message: one error to the sender, nothing else. */
    twostate predicate RejectEffect(session: SessionId, notice: Notice)
      reads this, registry, registry.rooms.Values
    {
      attributes == old(attributes) &&
      RoomsUnchanged() &&
      outbox == old(outbox) + [Outbound(session, Encoded(ErrorMessage(notice)))]
    }

    /** The effect of a message that ends the handler with an exception: nothing is sent or changed. */
    twostate predicate AbortEffect()
      reads this, registry, registry.rooms.Values
    {
      attributes == old(attributes) && RoomsUnchanged() && outbox == old(outbox)
    }

    /** Whether a disconnect of `session` has anything to do: it is tagged with a stored room. */
    ghost predicate InKnownRoom(session: SessionId)
      reads this, registry, registry.rooms.Values
    {
      session in attributes && registry.Members(attributes[session].roomId).Some?
    }

    /**
     * The effect of a disconnect: nothing, unless the session is tagged with a
     * stored room; then it leaves that room, the remaining open members get
     * `peer-left`, the room is evicted if it is now empty, and no other room
     * changes. The tag itself stays.
     */
    twostate predicate CloseEffect(session: SessionId, open: set<SessionId>)
      reads this, registry, registry.rooms.Values
    {
      attributes == old(attributes) &&
      if old(InKnownRoom(session)) then
        var roomId := attributes[session].roomId;
        var rest := Removed(old(registry.Members(roomId)).value, session);
        registry.Members(roomId) == (if rest == [] then None else Some(rest)) &&
        OthersUnchanged(roomId) &&
        outbox == old(outbox) + Relay(rest, session, open, Encoded(PeerLeftMessage(roomId)))
      else
        RoomsUnchanged() && outbox == old(outbox)
    }

    /** Entry point for one inbound text on `session`, whose decoding is `parsed`. */
    method HandleTextMessage(session: SessionId, raw: string, parsed: Parsed, freshId: string, open: set<SessionId>)
      requires Valid()
      modifies this, registry, registry.rooms.Values
      ensures Valid()
      ensures old(NoEmptyRooms()) ==> NoEmptyRooms()
      ensures match Classify(parsed)
        case Abort => AbortEffect()
        case Reject(notice) => RejectEffect(session, notice)
        case JoinRoom(roomId, sender) => JoinEffect(session, roomId, ClientIdFor(sender, freshId))
        case Forward(roomId) => ForwardEffect(session, roomId, raw, open)
    {
      match Classify(parsed)
      case Abort =>
        // the first field access fails; the exception leaves the handler
      case Reject(notice) =>
        SendError(session, notice);
      case JoinRoom(roomId, sender) =>
        HandleJoin(session, roomId, sender, freshId);
      case Forward(roomId) =>
        ForwardToRoom(session, roomId, raw, open);
    }

    /** Tags the session, adds it to the room (created if needed) and sends the join replies. */
    method HandleJoin(session: SessionId, roomId: string, sender: Option<string>, freshId: string)
      requires Valid()
      modifies this, registry, registry.rooms.Values
      ensures Valid()
      ensures old(NoEmptyRooms()) ==> NoEmptyRooms()
      ensures JoinEffect(session, roomId, ClientIdFor(sender, freshId))
    {
      var clientId := ClientIdFor(sender, freshId);
      attributes := attributes[session := SessionTag(roomId, clientId)];
      label tagged:
      assert registry.Members(roomId) == old(registry.Members(roomId));
      var room := EnterRoom(roomId, Participant(clientId, session));
      forall k | k != roomId ensures registry.Members(k) == old(registry.Members(k)) {
        assert old@tagged(registry.Members(k)) == old(registry.Members(k));
      }
      label entered:
      SendJoinReplies(room, session);
      assert registry.Members(roomId) == old@entered(registry.Members(roomId));
      forall k ensures registry.Members(k) == old@entered(registry.Members(k)) { }
    }

    /** The registry part of a join: get or create the room, then add the participant to it. */
    method EnterRoom(roomId: string, participant: Participant) returns (room: Room)
      requires Valid()
      modifies registry, registry.rooms.Values
      ensures Valid()
      ensures old(NoEmptyRooms()) ==> NoEmptyRooms()
      ensures room.id == roomId && room.participants == JoinedList(old(registry.Members(roomId)), participant)
      ensures registry.Members(roomId) == Some(room.participants)
      ensures OthersUnchanged(roomId)
      ensures roomId in old(registry.rooms) ==> registry.rooms == old(registry.rooms)
      ensures roomId !in old(registry.rooms) ==> fresh(room) && registry.rooms == old(registry.rooms)[roomId := room]
    {
      room := registry.GetOrCreate(roomId);
      ghost var prior := room.participants;
      label got:
      AddToRoom(roomId, room, participant);
      AddedContains(prior, participant);
      forall k | k != roomId ensures registry.Members(k) == old(registry.Members(k)) {
        assert registry.Members(k) == old@got(registry.Members(k));
      }
    }

    /** The membership part of a join: `participant` enters `room`, stored under `roomId`. */
    method AddToRoom(roomId: string, room: Room, participant: Participant)
      requires Valid() && roomId in registry.rooms && registry.rooms[roomId] == room
      modifies room
      ensures Valid()
      ensures room.participants == Added(old(room.participants), participant)
      ensures OthersUnchanged(roomId)
    {
      room.AddParticipant(participant);
      forall k | k in registry.rooms && k != roomId ensures registry.rooms[k] != room {
        assert registry.rooms[k].id == k;
      }
    }

    /** The replies to a join, sent once `room` holds the joiner. */
    method SendJoinReplies(room: Room, session: SessionId)
      modifies this`outbox
      ensures outbox == old(outbox) + JoinReplies(room.id, session, room.participants)
    {
      outbox := outbox + [Outbound(session, Encoded(JoinedMessage(room.id, room.Size())))];
      if room.Size() == 1 {
        outbox := outbox + [Outbound(session, Encoded(WaitingMessage(room.id)))];
      } else {
        NotifyReady(room);
      }
    }

    /** Forwards `raw` to the other open members if the sender is in the named room; otherwise an error. */
    method ForwardToRoom(sender: SessionId, roomId: string, raw: string, open: set<SessionId>)
      modifies this`outbox
      ensures ForwardEffect(sender, roomId, raw, open)
    {
      var found := registry.Find(roomId);
      if found.None? {
        SendError(sender, MustJoinFirst);
        return;
      }
      var room := found.value;
      var member := room.Contains(sender);
      if !member {
        SendError(sender, MustJoinFirst);
        return;
      }
      var ps := room.GetParticipants();
      SendToOthers(ps, sender, open, Verbatim(raw));
    }

    /** Sends `ready` to every member of `room`, flagging the first as initiator. */
    method NotifyReady(room: Room)
      modifies this`outbox
      ensures outbox == old(outbox) + ReadyBroadcast(room.id, room.FirstParticipant(), room.participants)
    {
      var initiator := room.FirstParticipant();
      var ps := room.GetParticipants();
      var i := 0;
      while i < |ps|
        invariant 0 <= i <= |ps|
        invariant outbox == old(outbox) + ReadyBroadcast(room.id, initiator, ps[..i])
      {
        assert ps[..i + 1][..i] == ps[..i];
        var isInitiator := initiator.Some? && ps[i] == initiator.value;
        outbox := outbox + [Outbound(ps[i].session, Encoded(ReadyMessage(room.id, isInitiator)))];
        i := i + 1;
      }
      assert ps[..i] == ps;
    }

    /** Sends `peer-left` to every open member of `room` other than the departed session. */
    method NotifyPeerLeft(room: Room, departed: SessionId, open: set<SessionId>)
      modifies this`outbox
      ensures outbox == old(outbox) + Relay(room.participants, departed, open, Encoded(PeerLeftMessage(room.id)))
    {
      var ps := room.GetParticipants();
      SendToOthers(ps, departed, open, Encoded(PeerLeftMessage(room.id)));
    }

    /** The loop shared by forwarding and `peer-left`: `frame` to each open participant but `except`. */
    method SendToOthers(ps: seq<Participant>, except: SessionId, open: set<SessionId>, frame: Frame)
      modifies this`outbox
      ensures outbox == old(outbox) + Relay(ps, except, open, frame)
    {
      var i := 0;
      while i < |ps|
        invariant 0 <= i <= |ps|
        invariant outbox == old(outbox) + Relay(ps[..i], except, open, frame)
      {
        assert ps[..i + 1][..i] == ps[..i];
        if !ps[i].IsSameSession(except) && ps[i].session in open {
          outbox := outbox + [Outbound(ps[i].session, frame)];
        }
        i := i + 1;
      }
      assert ps[..i] == ps;
    }

    /** Connection closed: leave the tagged room, tell the others, evict the room if empty. */
    method AfterConnectionClosed(session: SessionId, open: set<SessionId>)
      requires Valid()
      modifies this, registry, registry.rooms.Values
      ensures Valid()
      ensures old(NoEmptyRooms()) ==> NoEmptyRooms()
      ensures CloseEffect(session, open)
    {
      if session in attributes {
        var roomId := attributes[session].roomId;
        var found := registry.Find(roomId);
        if found.Some? {
          assert InKnownRoom(session) && registry.Members(roomId) == Some(found.value.participants);
          Depart(roomId, found.value, session, open);
        } else {
          assert !InKnownRoom(session);
        }
      }
    }

    /** A tagged session closes while its room `room` is still stored under `roomId`. */
    method Depart(roomId: string, room: Room, session: SessionId, open: set<SessionId>)
      requires Valid() && roomId in registry.rooms && registry.rooms[roomId] == room
      modifies this`outbox, registry, room
      ensures Valid()
      ensures old(NoEmptyRooms()) ==> NoEmptyRooms()
      ensures registry.Members(roomId) ==
        (if Removed(old(room.participants), session) == [] then None
         else Some(Removed(old(room.participants), session)))
      ensures OthersUnchanged(roomId)
      ensures outbox == old(outbox) +
        Relay(Removed(old(room.participants), session), session, open, Encoded(PeerLeftMessage(roomId)))
    {
      LeaveRoom(roomId, room, session);
      NotifyPeerLeft(room, session, open);
      registry.RemoveIfEmpty(roomId);
    }

    /** The membership part of a disconnect: the session leaves `room`, stored under `roomId`. */
    method LeaveRoom(roomId: string, room: Room, session: SessionId)
      requires Valid() && roomId in registry.rooms && registry.rooms[roomId] == room
      modifies room
      ensures Valid()
      ensures room.participants == Removed(old(room.participants), session)
      ensures OthersUnchanged(roomId)
    {
      room.RemoveParticipant(session);
      forall k | k in registry.rooms && k != roomId ensures registry.rooms[k] != room {
        assert registry.rooms[k].id == k;
      }
    }

    /** One error message, with no room id, to `session`. */
    method SendError(session: SessionId, notice: Notice)
      modifies this`outbox
      ensures outbox == old(outbox) + [Outbound(session, Encoded(ErrorMessage(notice)))]
    {
      outbox := outbox + [Outbound(session, Encoded(ErrorMessage(notice)))];
    }
  }

  // ---------------------------------------------------------------------------
  // Consequences of the tag being a single room id

  /**
   * A session that joins `first` and then `second` is listed in both rooms,
   * while its tag names only `second`; when it disconnects it leaves
   * `second` alone, and `first` keeps listing the closed session.
   */
  method JoinTwoRoomsThenClose(h: SignalingHandler, session: SessionId, first: string, second: string,
                               clientId: string, open: set<SessionId>)
    requires h.Valid() && first != second
    modifies h, h.registry, h.registry.rooms.Values
    ensures h.Valid()
    ensures session in h.attributes && h.attributes[session].roomId == second
    ensures h.registry.Members(first).Some? && HasSession(h.registry.Members(first).value, session)
    ensures h.registry.Members(second).Some? ==> !HasSession(h.registry.Members(second).value, session)
  {
    h.HandleJoin(session, first, Some(clientId), clientId);
    AddedContains(ListOf(old(h.registry.Members(first))), Participant(clientId, session));
    ghost var mid := h.registry.rooms;
    forall r | r in mid.Values ensures r in old(h.registry.rooms.Values) || fresh(r) {
      var k :| k in mid && mid[k] == r;
      if k != first || first in old(h.registry.rooms) {
        assert k in old(h.registry.rooms) && old(h.registry.rooms[k]) == r;
      }
    }
    label inFirst:
    h.HandleJoin(session, second, Some(clientId), clientId);
    assert h.registry.Members(first) == old@inFirst(h.registry.Members(first));
    assert h.registry.rooms == if second in mid then mid else mid[second := h.registry.rooms[second]];
    forall r | r in h.registry.rooms.Values ensures r in old(h.registry.rooms.Values) || fresh(r) {
      var k :| k in h.registry.rooms && h.registry.rooms[k] == r;
      if k != second || second in mid {
        assert k in mid && mid[k] == r;
      }
    }
    label inBoth:
    h.AfterConnectionClosed(session, open);
    assert old@inBoth(h.InKnownRoom(session));
    assert h.registry.Members(first) == old@inBoth(h.registry.Members(first));
    RemovedHasNoSession(old@inBoth(h.registry.Members(second)).value, session);
  }

  /**
   * A repeated join of a listed session to the same room changes no
   * membership, yet the join replies are sent again in full.
   */
  method JoinSameRoomTwice(h: SignalingHandler, session: SessionId, roomId: string, clientId: string)
    requires h.Valid()
    modifies h, h.registry, h.registry.rooms.Values
    ensures h.Valid()
    ensures h.registry.Members(roomId) ==
      Some(JoinedList(old(h.registry.Members(roomId)), Participant(clientId, session)))
    ensures var ps := h.registry.Members(roomId).value;
      HasSession(ps, session) &&
      h.outbox == old(h.outbox) + JoinReplies(roomId, session, ps) + JoinReplies(roomId, session, ps)
  {
    h.HandleJoin(session, roomId, Some(clientId), clientId);
    AddedContains(ListOf(old(h.registry.Members(roomId))), Participant(clientId, session));
    label once:
    h.HandleJoin(session, roomId, Some(clientId), clientId);
    assert h.registry.Members(roomId) == old@once(h.registry.Members(roomId));
  }
}
