/**
 * A room: a rendezvous id and the ordered list of its participants.
 * The list order is the join order, and its head is the participant that
 * must produce the first SDP offer.
 *
 * The value-level functions below (HasSession, Added, Removed, First) are
 * the specification of the list operations; the class Room keeps the list
 * in a mutable field and its methods are proved against them.
 */
module Rooms {

  import opened Options
  import opened Participants

  /** Some participant of `ps` is on session `s`. */
  predicate HasSession(ps: seq<Participant>, s: SessionId) {
    exists i :: 0 <= i < |ps| && ps[i].IsSameSession(s)
  }

  /** No two entries of `ps` share a session id. */
  predicate UniqueSessions(ps: seq<Participant>) {
    forall i, j :: 0 <= i < j < |ps| ==> ps[i].session != ps[j].session
  }

  /** The list after adding `p`: unchanged when its session is already present, else `p` appended. */
  function Added(ps: seq<Participant>, p: Participant): seq<Participant> {
    if HasSession(ps, p.session) then ps else ps + [p]
  }

  /** The list after removing every entry on session `s`, the others in their order. */
  function Removed(ps: seq<Participant>, s: SessionId): seq<Participant>
    decreases |ps|
  {
    if ps == [] then []
    else
      var last := ps[|ps| - 1];
      Removed(ps[..|ps| - 1], s) + (if last.IsSameSession(s) then [] else [last])
  }

  /** The designated initiator: the head of the list, if any. */
  function First(ps: seq<Participant>): Option<Participant> {
    if ps == [] then None else Some(ps[0])
  }

  // ---------------------------------------------------------------------------
  // Adding

  /** Adding keeps sessions unique. */
  lemma AddedUnique(ps: seq<Participant>, p: Participant)
    requires UniqueSessions(ps)
    ensures UniqueSessions(Added(ps, p))
  {
    if !HasSession(ps, p.session) {
      var r := ps + [p];
      forall i, j | 0 <= i < j < |r| ensures r[i].session != r[j].session {
        if j == |ps| {
          assert !ps[i].IsSameSession(p.session);
        }
      }
    }
  }

  /** After adding, the participant's session is in the (so non-empty) list. */
  lemma AddedContains(ps: seq<Participant>, p: Participant)
    ensures HasSession(Added(ps, p), p.session)
    ensures Added(ps, p) != []
  {
    if !HasSession(ps, p.session) {
      assert Added(ps, p)[|ps|].IsSameSession(p.session);
    }
  }

  /**
   * Adding never disturbs an earlier entry: the old list is a prefix of the
   * new one, which is at most one longer; in particular the initiator of a
   * non-empty room does not change.
   */
  lemma AddedKeepsPrefix(ps: seq<Participant>, p: Participant)
    ensures |ps| <= |Added(ps, p)| <= |ps| + 1 && Added(ps, p)[..|ps|] == ps
    ensures ps != [] ==> First(Added(ps, p)) == First(ps)
  {
  }

  // ---------------------------------------------------------------------------
  // Removing

  /** Removal splits over concatenation: it filters each part and keeps the parts in order. */
  lemma {:induction false} RemovedConcat(a: seq<Participant>, b: seq<Participant>, s: SessionId)
    ensures Removed(a + b, s) == Removed(a, s) + Removed(b, s)
    decreases |b|
  {
    if b == [] {
      assert a + b == a;
    } else {
      var b' := b[..|b| - 1];
      assert (a + b)[..|a + b| - 1] == a + b';
      assert (a + b)[|a + b| - 1] == b[|b| - 1];
      RemovedConcat(a, b', s);
    }
  }

  /** A one-element list loses its element exactly when it is on session `s`. */
  lemma RemovedSingleton(p: Participant, s: SessionId)
    ensures Removed([p], s) == if p.IsSameSession(s) then [] else [p]
  {
    assert [p][..0] == [];
  }

  /** What survives removal is exactly the entries of `ps` on another session. */
  lemma {:induction false} RemovedMembers(ps: seq<Participant>, s: SessionId)
    ensures forall q :: q in Removed(ps, s) <==> q in ps && q.session != s
    ensures |Removed(ps, s)| <= |ps|
    decreases |ps|
  {
    if ps != [] {
      var init := ps[..|ps| - 1];
      RemovedMembers(init, s);
      assert ps == init + [ps[|ps| - 1]];
    }
  }

  /** After removal no entry is on session `s`. */
  lemma RemovedHasNoSession(ps: seq<Participant>, s: SessionId)
    ensures !HasSession(Removed(ps, s), s)
  {
    RemovedMembers(ps, s);
    var r := Removed(ps, s);
    forall i | 0 <= i < |r| ensures !r[i].IsSameSession(s) {
      assert r[i] in r;
    }
  }

  /** Removing an absent session leaves the list unchanged. */
  lemma {:induction false} RemovedAbsent(ps: seq<Participant>, s: SessionId)
    requires !HasSession(ps, s)
    ensures Removed(ps, s) == ps
    decreases |ps|
  {
    if ps != [] {
      var init := ps[..|ps| - 1];
      assert !ps[|ps| - 1].IsSameSession(s);
      forall i | 0 <= i < |init| ensures !init[i].IsSameSession(s) {
        assert ps[i] == init[i];
      }
      RemovedAbsent(init, s);
      assert ps == init + [ps[|ps| - 1]];
    }
  }

  /** Removal is idempotent. */
  lemma RemovedIdempotent(ps: seq<Participant>, s: SessionId)
    ensures Removed(Removed(ps, s), s) == Removed(ps, s)
  {
    RemovedHasNoSession(ps, s);
    RemovedAbsent(Removed(ps, s), s);
  }

  /** Removal keeps sessions unique. */
  lemma {:induction false} RemovedUnique(ps: seq<Participant>, s: SessionId)
    requires UniqueSessions(ps)
    ensures UniqueSessions(Removed(ps, s))
    decreases |ps|
  {
    if ps != [] {
      var init, last := ps[..|ps| - 1], ps[|ps| - 1];
      assert UniqueSessions(init) by {
        forall i, j | 0 <= i < j < |init| ensures init[i].session != init[j].session {
          assert init[i] == ps[i] && init[j] == ps[j];
        }
      }
      RemovedUnique(init, s);
      RemovedMembers(init, s);
      var ri := Removed(init, s);
      if !last.IsSameSession(s) {
        var r := ri + [last];
        forall i, j | 0 <= i < j < |r| ensures r[i].session != r[j].session {
          if j == |ri| {
            assert r[i] in ri;
            assert r[i] in init;
            var k :| 0 <= k < |init| && init[k] == r[i];
            assert ps[k] == init[k];
          }
        }
      }
    }
  }

  /**
   * With unique sessions, removing a present session shortens the list by
   * exactly one; removing an absent one does not shorten it.
   */
  lemma {:induction false} RemovedLength(ps: seq<Participant>, s: SessionId)
    requires UniqueSessions(ps)
    ensures |Removed(ps, s)| == if HasSession(ps, s) then |ps| - 1 else |ps|
    decreases |ps|
  {
    if ps == [] {
    } else {
      var init, last := ps[..|ps| - 1], ps[|ps| - 1];
      assert UniqueSessions(init) by {
        forall i, j | 0 <= i < j < |init| ensures init[i].session != init[j].session {
          assert init[i] == ps[i] && init[j] == ps[j];
        }
      }
      RemovedLength(init, s);
      if last.IsSameSession(s) {
        forall i | 0 <= i < |init| ensures !init[i].IsSameSession(s) {
          assert ps[i] == init[i];
        }
        assert HasSession(ps, s) by { assert ps[|ps| - 1].IsSameSession(s); }
      } else {
        assert HasSession(ps, s) <==> HasSession(init, s) by {
          if HasSession(ps, s) {
            var i :| 0 <= i < |ps| && ps[i].IsSameSession(s);
            assert i < |init| && init[i] == ps[i];
          }
          if HasSession(init, s) {
            var i :| 0 <= i < |init| && init[i].IsSameSession(s);
            assert ps[i] == init[i];
          }
        }
      }
    }
  }

  /** The earliest participant stays the initiator while it is not the one removed. */
  lemma RemovedKeepsFirst(ps: seq<Participant>, s: SessionId)
    requires ps != [] && !ps[0].IsSameSession(s)
    ensures First(Removed(ps, s)) == First(ps)
  {
    assert ps == [ps[0]] + ps[1..];
    RemovedConcat([ps[0]], ps[1..], s);
    RemovedSingleton(ps[0], s);
  }

  // ---------------------------------------------------------------------------
  // The mutable room

  class Room {

    const id: string
    var participants: seq<Participant>

    /** The room's invariant: no session is in the room twice. */
    ghost predicate Valid()
      reads this
    {
      UniqueSessions(participants)
    }

    constructor (id: string)
      ensures this.id == id && participants == []
      ensures Valid()
    {
      this.id := id;
      participants := [];
    }

    /** Appends `p` unless its session is already in the room. */
    method AddParticipant(p: Participant)
      requires Valid()
      modifies this
      ensures Valid()
      ensures participants == Added(old(participants), p)
    {
      AddedUnique(participants, p);
      var alreadyPresent := Contains(p.session);
      if !alreadyPresent {
        participants := participants + [p];
      }
    }

    /** Drops every participant on `session`, keeping the order of the rest. */
    method RemoveParticipant(session: SessionId)
      requires Valid()
      modifies this
      ensures Valid()
      ensures participants == Removed(old(participants), session)
    {
      var kept: seq<Participant> := [];
      var i := 0;
      while i < |participants|
        invariant 0 <= i <= |participants|
        invariant kept == Removed(participants[..i], session)
      {
        assert participants[..i + 1][..i] == participants[..i];
        if !participants[i].IsSameSession(session) {
          kept := kept + [participants[i]];
        }
        i := i + 1;
      }
      assert participants[..i] == participants;
      RemovedUnique(participants, session);
      participants := kept;
    }

    /** A snapshot of the participant list, in join order. */
    method GetParticipants() returns (ps: seq<Participant>)
      ensures ps == participants
    {
      ps := participants;
    }

    /** The earliest joined participant still present, or none for an empty room. */
    function FirstParticipant(): (r: Option<Participant>)
      reads this
      ensures r.None? <==> participants == []
      ensures r.Some? ==> r.value == participants[0]
    {
      First(participants)
    }

    /** The number of participants. */
    function Size(): (n: nat)
      reads this
      ensures n == |participants|
    {
      |participants|
    }

    /** The room has no participant: exactly when its size is zero. */
    function IsEmpty(): (b: bool)
      reads this
      ensures b <==> Size() == 0
    {
      participants == []
    }

    /** Whether some participant is on `session`, by a scan of the list. */
    method Contains(session: SessionId) returns (b: bool)
      ensures b <==> HasSession(participants, session)
    {
      b := false;
      var i := 0;
      while i < |participants| && !b
        invariant 0 <= i <= |participants|
        invariant b <==> (i > 0 && participants[i - 1].IsSameSession(session))
        invariant !b ==> forall k :: 0 <= k < i ==> !participants[k].IsSameSession(session)
      {
        b := participants[i].IsSameSession(session);
        i := i + 1;
      }
    }
  }
}
