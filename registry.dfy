/**
 * The server's session registry: one object that owns the map from session id to
 * stored session and applies every rule of a dice session to it in place.
 *
 * The session id, the die value and the clock reading are parameters here: the
 * server draws the first two from a random source and the third from the clock.
 */
module Registry {
  import opened Types
  import opened Session

  /** The default sweep age: one day, in milliseconds. */
  const DefaultMaxAgeMs: int := 24 * 60 * 60 * 1000

  /** A session created at `d.createdAt` is older than `maxAgeMs` at time `now`. */
  predicate Expired(d: SessionData, now: int, maxAgeMs: int)
  {
    now - d.createdAt > maxAgeMs
  }

  /** The invariant of the whole registry: each stored session is filed under its own
      id and is a valid session. */
  ghost predicate ValidRegistry(m: map<string, SessionData>)
  {
    forall sid :: sid in m ==> m[sid].state.sessionId == sid && ValidState(m[sid].state)
  }

  /** The registry left by a sweep at time `now`: exactly the sessions that have not
      expired, each untouched. */
  function Swept(m: map<string, SessionData>, now: int, maxAgeMs: int): (r: map<string, SessionData>)
    ensures forall sid :: sid in r <==> sid in m && !Expired(m[sid], now, maxAgeMs)
    ensures forall sid :: sid in r ==> r[sid] == m[sid]
    ensures ValidRegistry(m) ==> ValidRegistry(r)
  {
    map sid | sid in m && !Expired(m[sid], now, maxAgeMs) :: m[sid]
  }

  /** Sweeping twice at the same time with the same age removes nothing more. */
  lemma SweptIdempotent(m: map<string, SessionData>, now: int, maxAgeMs: int)
    ensures Swept(Swept(m, now, maxAgeMs), now, maxAgeMs) == Swept(m, now, maxAgeMs)
  {
  }

  /** A later sweep, or one with a shorter age, keeps no session an earlier or more
      lenient sweep removed. */
  lemma SweptMonotone(m: map<string, SessionData>, now: int, now': int, maxAgeMs: int, maxAgeMs': int)
    requires now <= now' && maxAgeMs' <= maxAgeMs
    ensures Swept(m, now', maxAgeMs').Keys <= Swept(m, now, maxAgeMs).Keys
  {
  }

  class SessionManager {
    /** Session id to stored session. */
    var sessions: map<string, SessionData>

    ghost predicate Valid()
      reads this
    {
      ValidRegistry(sessions)
    }

    constructor ()
      ensures Valid() && sessions == map[]
    {
      sessions := map[];
    }

    /** Stores a fresh session under `sessionId`, whose only participant is the host.
        An existing session under the same id is overwritten; every other is kept. */
    method CreateSession(sessionId: string, hostId: string, hostNickname: string, now: int) returns (id: string)
      requires Valid()
      modifies this
      ensures Valid()
      ensures id == sessionId
      ensures sessions == old(sessions)[sessionId := SessionData(NewSession(sessionId, hostId, hostNickname), now)]
    {
      var state := NewSession(sessionId, hostId, hostNickname);
      sessions := sessions[sessionId := SessionData(state, now)];
      id := sessionId;
    }

    /** Fails on an unknown session; otherwise succeeds, appending a newcomer at the
        tail of the participant list and treating a known id as a reconnect. */
    method JoinSession(sessionId: string, participantId: string, nickname: string) returns (ok: bool)
      requires Valid()
      modifies this
      ensures Valid()
      ensures ok <==> sessionId in old(sessions)
      ensures !ok ==> sessions == old(sessions)
      ensures ok && HasId(old(sessions)[sessionId].state.participants, participantId) ==> sessions == old(sessions)
      ensures ok ==> sessions == old(sessions)[sessionId :=
        old(sessions)[sessionId].(state := Join(old(sessions)[sessionId].state, participantId, nickname))]
    {
      if sessionId !in sessions {
        return false;
      }
      var session := sessions[sessionId];
      if FindById(session.state.participants, participantId).None? {
        var participants := session.state.participants + [Participant(participantId, nickname, false)];
        sessions := sessions[sessionId := session.(state := session.state.(participants := participants))];
      }
      ok := true;
    }

    /** Drops the participant from a known session, deleting the session once nobody is
        left. An unknown session or an absent id changes nothing. */
    method RemoveParticipant(sessionId: string, participantId: string)
      requires Valid()
      modifies this
      ensures Valid()
      ensures sessionId !in old(sessions) ==> sessions == old(sessions)
      ensures sessionId in old(sessions) && !HasId(old(sessions)[sessionId].state.participants, participantId) ==>
        sessions == old(sessions)
      ensures sessionId in old(sessions) ==>
        match Remove(old(sessions)[sessionId].state, participantId)
        case None => sessions == old(sessions) - {sessionId}
        case Some(state) => sessions == old(sessions)[sessionId := old(sessions)[sessionId].(state := state)]
    {
      if sessionId !in sessions {
        return;
      }
      var session := sessions[sessionId];
      var participants := RemoveId(session.state.participants, participantId);
      var index := session.state.currentRollerIndex;
      if index >= |participants| {
        index := 0;
      }
      if |participants| == 0 {
        assert Remove(session.state, participantId).None?;
        sessions := sessions - {sessionId};
      } else {
        var state := session.state.(participants := participants, currentRollerIndex := index);
        assert Remove(session.state, participantId) == Some(state);
        sessions := sessions[sessionId := session.(state := state)];
      }
    }

    /** Records a roll of `value` by the current roller. Anyone else, or an unknown
        session, gets `None` and changes nothing. */
    method RollDice(sessionId: string, rollerId: string, value: int, now: int) returns (roll: Option<DiceRoll>)
      requires Valid()
      requires 1 <= value <= 6
      modifies this
      ensures Valid()
      ensures roll.Some? <==> sessionId in old(sessions) && MayRoll(old(sessions)[sessionId].state, rollerId)
      ensures roll.None? ==> sessions == old(sessions)
      ensures roll.Some? ==> 1 <= roll.value.value <= 6 && roll.value.rollerId == rollerId
      ensures roll.Some? ==> roll == Some(RollBy(old(sessions)[sessionId].state, value, now))
      ensures roll.Some? ==> sessions == old(sessions)[sessionId :=
        old(sessions)[sessionId].(state := Rolled(old(sessions)[sessionId].state, roll.value))]
    {
      if sessionId !in sessions {
        return None;
      }
      var session := sessions[sessionId];
      var currentRoller := At(session.state.participants, session.state.currentRollerIndex);
      if currentRoller.None? || currentRoller.value.id != rollerId {
        return None;
      }
      var record := DiceRoll(value, rollerId, currentRoller.value.nickname, now);
      sessions := sessions[sessionId := session.(state := session.state.(lastRoll := Some(record), rollCount := session.state.rollCount + 1))];
      roll := Some(record);
    }

    /** Passes the turn to the next participant, wrapping at the end; only the stored
        host id may do so. */
    method AdvanceRound(sessionId: string, requesterId: string) returns (ok: bool)
      requires Valid()
      modifies this
      ensures Valid()
      ensures ok <==> sessionId in old(sessions) && IsHost(old(sessions)[sessionId].state, requesterId)
      ensures !ok ==> sessions == old(sessions)
      ensures ok ==> sessions == old(sessions)[sessionId :=
        old(sessions)[sessionId].(state := Advance(old(sessions)[sessionId].state))]
    {
      if sessionId !in sessions {
        return false;
      }
      var session := sessions[sessionId];
      if session.state.host != requesterId {
        return false;
      }
      var index := (session.state.currentRollerIndex + 1) % |session.state.participants|;
      sessions := sessions[sessionId := session.(state := session.state.(currentRollerIndex := index))];
      ok := true;
    }

    /** Sets the roll counter back to zero; only the stored host id may do so. */
    method ResetCounter(sessionId: string, requesterId: string) returns (ok: bool)
      requires Valid()
      modifies this
      ensures Valid()
      ensures ok <==> sessionId in old(sessions) && IsHost(old(sessions)[sessionId].state, requesterId)
      ensures !ok ==> sessions == old(sessions)
      ensures ok ==> sessions == old(sessions)[sessionId :=
        old(sessions)[sessionId].(state := Reset(old(sessions)[sessionId].state))]
    {
      if sessionId !in sessions {
        return false;
      }
      var session := sessions[sessionId];
      if session.state.host != requesterId {
        return false;
      }
      sessions := sessions[sessionId := session.(state := session.state.(rollCount := 0))];
      ok := true;
    }

    /** Whether a session is stored under `sessionId`; in a valid registry a stored
        session is a valid one filed under that id. */
    function SessionExists(sessionId: string): (b: bool)
      reads this
      ensures b <==> sessionId in sessions
      ensures b && Valid() ==> sessions[sessionId].state.sessionId == sessionId && ValidState(sessions[sessionId].state)
    {
      sessionId in sessions
    }

    /** The stored state of a session, or `None`: always a valid state filed under the
        id asked for, and present exactly when the session exists. */
    function GetSessionState(sessionId: string): (r: Option<SessionState>)
      reads this
      requires Valid()
      ensures r.Some? <==> SessionExists(sessionId)
      ensures r.Some? ==> r.value.sessionId == sessionId && ValidState(r.value)
      ensures r.Some? ==> r.value == sessions[sessionId].state
    {
      if sessionId in sessions then Some(sessions[sessionId].state) else None
    }

    /** The ids of all stored sessions, each exactly once. */
    method GetAllSessions() returns (ids: seq<string>)
      ensures forall sid :: sid in ids <==> sid in sessions
      ensures forall i, j :: 0 <= i < j < |ids| ==> ids[i] != ids[j]
    {
      ids := [];
      var rest := sessions.Keys;
      while rest != {}
        invariant rest <= sessions.Keys
        invariant forall sid :: sid in ids <==> sid in sessions && sid !in rest
        invariant forall i, j :: 0 <= i < j < |ids| ==> ids[i] != ids[j]
        decreases rest
      {
        var sid :| sid in rest;
        ids := ids + [sid];
        rest := rest - {sid};
      }
    }

    /** Deletes every session older than `maxAgeMs` at time `now` and keeps every
        other session as it was. */
    method CleanupOldSessions(now: int, maxAgeMs: int := DefaultMaxAgeMs)
      requires Valid()
      modifies this
      ensures Valid()
      ensures sessions == Swept(old(sessions), now, maxAgeMs)
    {
      var pending := sessions.Keys;
      while pending != {}
        invariant pending <= old(sessions).Keys
        invariant forall sid :: sid in sessions <==>
          sid in old(sessions) && (sid in pending || !Expired(old(sessions)[sid], now, maxAgeMs))
        invariant forall sid :: sid in sessions ==> sessions[sid] == old(sessions)[sid]
        decreases pending
      {
        var sid :| sid in pending;
        if now - sessions[sid].createdAt > maxAgeMs {
          sessions := sessions - {sid};
        }
        pending := pending - {sid};
      }
    }
  }
}
