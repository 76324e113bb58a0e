/**
 * The signalling envelope and what the server puts on the wire.
 *
 * JSON decoding and encoding are not modelled: a decoded inbound text is a
 * `Parsed` value, and an outbound message is either a structured envelope the
 * server builds (`Encoded`) or an inbound text passed on untouched (`Verbatim`).
 */
module Messages {

  import opened Options
  import opened Participants

  /** The human-readable texts the server attaches, by what they say. */
  datatype Notice =
    | InvalidJson
    | NeedsTypeAndRoomId
    | UnsupportedType(messageType: string)
    | MustJoinFirst
    | SignalingConnected(roomId: string)
    | WaitingForPeer
    | ParticipantLeft

  /** Payload shapes: a client's opaque data, or one of the objects the server builds. */
  datatype Payload =
    | ClientData(json: string)
    | JoinAck(participants: int, note: Notice)
    | Note(note: Notice)
    | ReadyFlag(initiator: bool)

  /** The envelope; every field may be absent (null). `target` is never read by the server. */
  datatype SignalMessage = SignalMessage(
    messageType: Option<string>,
    roomId: Option<string>,
    sender: Option<string>,
    target: Option<string>,
    payload: Option<Payload>)

  /**
   * Outcome of decoding one inbound text: an envelope, a text that is not
   * JSON for an envelope, or the JSON literal `null`, which decodes without
   * error to no envelope at all.
   */
  datatype Parsed = Ok(msg: SignalMessage) | Malformed | NullDocument

  /** What is written on a session: a server envelope, or a client's text verbatim. */
  datatype Frame = Encoded(msg: SignalMessage) | Verbatim(text: string)

  datatype Outbound = Outbound(to: SessionId, frame: Frame)

  /** A message from the server: sender "server", no target. */
  function FromServer(messageType: string, roomId: Option<string>, payload: Payload): SignalMessage {
    SignalMessage(Some(messageType), roomId, Some("server"), None, Some(payload))
  }

  function JoinedMessage(roomId: string, participants: int): SignalMessage {
    FromServer("joined", Some(roomId), JoinAck(participants, SignalingConnected(roomId)))
  }

  function WaitingMessage(roomId: string): SignalMessage {
    FromServer("waiting", Some(roomId), Note(WaitingForPeer))
  }

  function ReadyMessage(roomId: string, initiator: bool): SignalMessage {
    FromServer("ready", Some(roomId), ReadyFlag(initiator))
  }

  function PeerLeftMessage(roomId: string): SignalMessage {
    FromServer("peer-left", Some(roomId), Note(ParticipantLeft))
  }

  /** Error messages carry no room id. */
  function ErrorMessage(notice: Notice): SignalMessage {
    FromServer("error", None, Note(notice))
  }

  /** How many of the outbound messages in `out` go to session `s`. */
  function Deliveries(out: seq<Outbound>, s: SessionId): nat
    decreases |out|
  {
    if out == [] then 0
    else Deliveries(out[..|out| - 1], s) + (if out[|out| - 1].to == s then 1 else 0)
  }

  /** Counting deliveries splits over concatenation. */
  lemma {:induction false} DeliveriesConcat(a: seq<Outbound>, b: seq<Outbound>, s: SessionId)
    ensures Deliveries(a + b, s) == Deliveries(a, s) + Deliveries(b, s)
    decreases |b|
  {
    if b == [] {
      assert a + b == a;
    } else {
      var b' := b[..|b| - 1];
      assert (a + b)[..|a + b| - 1] == a + b';
      assert (a + b)[|a + b| - 1] == b[|b| - 1];
      DeliveriesConcat(a, b', s);
    }
  }
}
