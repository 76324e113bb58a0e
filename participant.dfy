/**
 * A participant is one connected client inside a room: the client id it
 * announced (or was given) and the WebSocket session it is connected on.
 * A session is represented by its stable session id; every comparison the
 * server makes between connections goes through that id.
 */
module Participants {

  type SessionId = string

  /** Both fields are fixed at construction: a participant is a value. */
  datatype Participant = Participant(clientId: string, session: SessionId) {

    /** Identity by connection: the session ids agree, the client ids are irrelevant. */
    predicate IsSameSession(other: SessionId) {
      session == other
    }
  }

  /**
   * The identity test is equality of session ids: it ignores the client id,
   * is reflexive on a participant's own session and symmetric; the fields are
   * the constructor arguments and determine the participant.
   */
  lemma SessionIdentity(a: Participant, b: Participant, other: SessionId)
    ensures a.IsSameSession(other) <==> a.session == other
    ensures a.session == b.session && a.clientId != b.clientId ==>
      a != b && a.IsSameSession(b.session) && b.IsSameSession(a.session)
    ensures a.IsSameSession(a.session)
    ensures a.IsSameSession(b.session) <==> b.IsSameSession(a.session)
    ensures Participant(a.clientId, other).clientId == a.clientId && Participant(a.clientId, other).session == other
    ensures a == Participant(a.clientId, a.session)
  {
  }
}
