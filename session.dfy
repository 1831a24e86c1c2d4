/**
 * The rules of one dice session, as values: what each registry operation does to
 * the `SessionState` it finds under a session id. The registry class applies them
 * in place; the lemmas here state what the rules guarantee.
 */
module Session {
  import opened Types

  /** The invariant every stored session keeps: at least one participant, distinct
      ids, a current roller index that points into the list, and only the host's id
      flagged as host. */
  predicate ValidState(s: SessionState)
  {
    && |s.participants| > 0
    && DistinctIds(s.participants)
    && s.currentRollerIndex < |s.participants|
    && (forall i :: 0 <= i < |s.participants| && s.participants[i].isHost ==> s.participants[i].id == s.host)
  }

  /** The participant whose turn it is (`participants[currentRollerIndex]`), if any:
      absent only when the index has run past the end, which a valid session rules out. */
  function CurrentRoller(s: SessionState): (r: Option<Participant>)
    ensures r.Some? <==> s.currentRollerIndex < |s.participants|
    ensures r.Some? ==> r.value == s.participants[s.currentRollerIndex]
    ensures ValidState(s) ==> r.Some? && r.value in s.participants
  {
    At(s.participants, s.currentRollerIndex)
  }

  /** The turn gate of `rollDice`: `rollerId` is the current roller's id. Only a
      participant can pass it, and in a valid session only the one at the index. */
  function MayRoll(s: SessionState, rollerId: string): (b: bool)
    ensures b ==> HasId(s.participants, rollerId)
    ensures ValidState(s) ==> (b <==> s.participants[s.currentRollerIndex].id == rollerId)
    ensures ValidState(s) && b ==>
      forall i :: 0 <= i < |s.participants| && s.participants[i].id == rollerId ==> i == s.currentRollerIndex
  {
    CurrentRoller(s).Some? && CurrentRoller(s).value.id == rollerId
  }

  /** The host gate of `advanceRound` and `resetCounter`: it compares with the stored
      host id and ignores the `isHost` flags, though in a valid session every flagged
      participant passes it and no other flagged participant exists beside the one
      that does. */
  function IsHost(s: SessionState, requesterId: string): (b: bool)
    ensures b <==> requesterId == s.host
    ensures ValidState(s) && (exists i :: 0 <= i < |s.participants| && s.participants[i].isHost && s.participants[i].id == requesterId) ==> b
    ensures ValidState(s) && b ==>
      forall i :: 0 <= i < |s.participants| && s.participants[i].isHost ==> s.participants[i].id == requesterId
  {
    s.host == requesterId
  }

  /** `participants.find(p => p.id === id)`: the first participant carrying `id`. */
  function FindById(ps: seq<Participant>, id: string): (r: Option<Participant>)
    ensures r.None? <==> !HasId(ps, id)
    ensures r.Some? ==> exists i :: 0 <= i < |ps| && ps[i] == r.value && r.value.id == id && !HasId(ps[..i], id)
  {
    if ps == [] then None
    else if ps[0].id == id then
      assert ps[..0] == [];
      Some(ps[0])
    else
      var r := FindById(ps[1..], id);
      if r.Some? then
        var i :| 0 <= i < |ps[1..]| && ps[1..][i] == r.value && r.value.id == id && !HasId(ps[1..][..i], id);
        assert ps[..i + 1] == [ps[0]] + ps[1..][..i];
        r
      else
        r
  }

  /** `participants.filter(p => p.id !== id)`: every entry carrying `id` dropped. */
  function RemoveId(ps: seq<Participant>, id: string): (r: seq<Participant>)
    ensures |r| <= |ps|
  {
    if ps == [] then []
    else if ps[0].id == id then RemoveId(ps[1..], id)
    else [ps[0]] + RemoveId(ps[1..], id)
  }

  /** An entry survives the filter exactly when it was in the list and does not carry `id`. */
  lemma {:induction false} RemoveIdMember(ps: seq<Participant>, id: string, p: Participant)
    ensures p in RemoveId(ps, id) <==> p in ps && p.id != id
  {
    if ps != [] {
      RemoveIdMember(ps[1..], id, p);
      assert ps == [ps[0]] + ps[1..];
    }
  }

  /** Filtering out an id that nobody carries changes nothing. */
  lemma {:induction false} RemoveIdAbsent(ps: seq<Participant>, id: string)
    requires !HasId(ps, id)
    ensures RemoveId(ps, id) == ps
  {
    if ps != [] {
      assert ps[0].id != id;
      var tail := ps[1..];
      forall i | 0 <= i < |tail| ensures tail[i].id != id {
        assert tail[i] == ps[i + 1];
      }
      RemoveIdAbsent(tail, id);
    }
  }

  /** Filtering keeps ids distinct. */
  lemma {:induction false} RemoveIdDistinct(ps: seq<Participant>, id: string)
    requires DistinctIds(ps)
    ensures DistinctIds(RemoveId(ps, id))
  {
    if ps != [] {
      var tail := ps[1..];
      assert DistinctIds(tail) by {
        forall i, j | 0 <= i < j < |tail| ensures tail[i].id != tail[j].id {
          assert tail[i] == ps[i + 1] && tail[j] == ps[j + 1];
        }
      }
      RemoveIdDistinct(tail, id);
      var rest := RemoveId(tail, id);
      if ps[0].id != id {
        forall p | p in rest ensures p.id != ps[0].id {
          RemoveIdMember(tail, id, p);
          var k :| 0 <= k < |tail| && tail[k] == p;
          assert ps[k + 1] == p;
        }
        var r := [ps[0]] + rest;
        forall i, j | 0 <= i < j < |r| ensures r[i].id != r[j].id {
          assert r[j] == rest[j - 1];
          if i > 0 {
            assert r[i] == rest[i - 1];
          } else {
            assert rest[j - 1] in rest;
          }
        }
      }
    }
  }

  /** Filtering commutes with concatenation: the survivors keep their order. */
  lemma {:induction false} RemoveIdAppend(a: seq<Participant>, b: seq<Participant>, id: string)
    ensures RemoveId(a + b, id) == RemoveId(a, id) + RemoveId(b, id)
  {
    if a == [] {
      assert a + b == b;
    } else {
      var ab := a + b;
      assert ab[0] == a[0] && ab[1..] == a[1..] + b;
      RemoveIdAppend(a[1..], b, id);
      if a[0].id != id {
        assert [a[0]] + (RemoveId(a[1..], id) + RemoveId(b, id)) == ([a[0]] + RemoveId(a[1..], id)) + RemoveId(b, id);
      }
    }
  }

  /** With distinct ids, removing the id held at position `j` takes out exactly that entry. */
  lemma RemoveIdAt(ps: seq<Participant>, j: nat, id: string)
    requires DistinctIds(ps) && j < |ps| && ps[j].id == id
    ensures RemoveId(ps, id) == ps[..j] + ps[j + 1..]
  {
    var front, back := ps[..j], ps[j + 1..];
    assert ps == front + ([ps[j]] + back);
    RemoveIdAppend(front, [ps[j]] + back, id);
    RemoveIdAppend([ps[j]], back, id);
    assert [ps[j]][1..] == [];
    forall i | 0 <= i < |front| ensures front[i].id != id {
      assert front[i] == ps[i];
    }
    forall i | 0 <= i < |back| ensures back[i].id != id {
      assert back[i] == ps[j + 1 + i];
    }
    RemoveIdAbsent(front, id);
    RemoveIdAbsent(back, id);
  }

  /** The state `createSession` stores: the creator is the sole participant, the host
      and the current roller; the counter is zero and nothing has been rolled. */
  function NewSession(sessionId: string, hostId: string, hostNickname: string): (s: SessionState)
    ensures ValidState(s)
    ensures s.sessionId == sessionId && IsHost(s, hostId)
    ensures s.participants == [Participant(hostId, hostNickname, true)]
    ensures CurrentRoller(s) == Some(Participant(hostId, hostNickname, true))
    ensures s.rollCount == 0 && s.lastRoll == None
  {
    SessionState(sessionId, [Participant(hostId, hostNickname, true)], 0, 0, None, hostId)
  }

  /** `joinSession` on an existing session: a known id is a reconnect and changes
      nothing; a new id is appended at the tail as a non-host participant. */
  function Join(s: SessionState, participantId: string, nickname: string): (r: SessionState)
    ensures HasId(r.participants, participantId)
    ensures HasId(s.participants, participantId) ==> r == s
    ensures !HasId(s.participants, participantId) ==>
      r.participants == s.participants + [Participant(participantId, nickname, false)]
    ensures r.(participants := s.participants) == s
    ensures ValidState(s) ==> ValidState(r)
  {
    if FindById(s.participants, participantId).None? then
      var ps := s.participants + [Participant(participantId, nickname, false)];
      assert ps[|s.participants|].id == participantId;
      s.(participants := ps)
    else
      s
  }

  /** Joining twice with the same id is the same as joining once. */
  lemma JoinIdempotent(s: SessionState, participantId: string, nickname: string, nickname': string)
    ensures Join(Join(s, participantId, nickname), participantId, nickname') == Join(s, participantId, nickname)
  {
  }

  /** `removeParticipant` on an existing session: `None` when the list becomes empty
      and the session is deleted, otherwise the filtered list, with the roller index
      reset to 0 only when it no longer points into the list. The host is kept. */
  function Remove(s: SessionState, participantId: string): (r: Option<SessionState>)
    ensures r.Some? ==> r.value.participants == RemoveId(s.participants, participantId)
    ensures r.Some? ==>
      (r.value.currentRollerIndex == if s.currentRollerIndex < |r.value.participants| then s.currentRollerIndex else 0)
    ensures r.Some? ==> r.value.(participants := s.participants, currentRollerIndex := s.currentRollerIndex) == s
    ensures ValidState(s) ==> (r.None? <==> |s.participants| == 1 && s.participants[0].id == participantId)
    ensures ValidState(s) && r.Some? ==> ValidState(r.value)
    ensures ValidState(s) && !HasId(s.participants, participantId) ==> r == Some(s)
  {
    var ps := RemoveId(s.participants, participantId);
    assert ValidState(s) ==> DistinctIds(ps) by {
      if ValidState(s) {
        RemoveIdDistinct(s.participants, participantId);
      }
    }
    assert ValidState(s) && !HasId(s.participants, participantId) ==> ps == s.participants by {
      if ValidState(s) && !HasId(s.participants, participantId) {
        RemoveIdAbsent(s.participants, participantId);
      }
    }
    var index := if s.currentRollerIndex >= |ps| then 0 else s.currentRollerIndex;
    assert ValidState(s) ==> (|ps| == 0 <==> |s.participants| == 1 && s.participants[0].id == participantId) by {
      if ValidState(s) {
        if |s.participants| == 1 && s.participants[0].id == participantId {
          RemoveIdAt(s.participants, 0, participantId);
        }
        if |s.participants| > 1 {
          assert s.participants[0].id != s.participants[1].id;
          var w := if s.participants[0].id != participantId then s.participants[0] else s.participants[1];
          RemoveIdMember(s.participants, participantId, w);
        } else if s.participants[0].id != participantId {
          RemoveIdMember(s.participants, participantId, s.participants[0]);
        }
      }
    }
    if |ps| == 0 then None
    else
      var r := s.(participants := ps, currentRollerIndex := index);
      assert ValidState(s) ==> forall i :: 0 <= i < |ps| && ps[i].isHost ==> ps[i].id == s.host by {
        if ValidState(s) {
          forall i | 0 <= i < |ps| && ps[i].isHost ensures ps[i].id == s.host {
            RemoveIdMember(s.participants, participantId, ps[i]);
          }
        }
      }
      Some(r)
  }

  /** Removing someone who stands after the current roller leaves the turn where it is. */
  lemma RemoveAfterCurrentKeepsTurn(s: SessionState, j: nat)
    requires ValidState(s) && s.currentRollerIndex < j < |s.participants|
    ensures Remove(s, s.participants[j].id).Some?
    ensures CurrentRoller(Remove(s, s.participants[j].id).value) == CurrentRoller(s)
  {
    var ps := s.participants;
    RemoveIdAt(ps, j, ps[j].id);
    var rest := ps[..j] + ps[j + 1..];
    assert rest[s.currentRollerIndex] == ps[s.currentRollerIndex];
  }

  /** Removing the current roller hands the turn to the one after them, wrapping to
      the head of the list, exactly as an advance would. */
  lemma RemoveCurrentPassesTurn(s: SessionState)
    requires ValidState(s) && |s.participants| > 1
    ensures Remove(s, s.participants[s.currentRollerIndex].id).Some?
    ensures CurrentRoller(Remove(s, s.participants[s.currentRollerIndex].id).value) ==
      Some(s.participants[(s.currentRollerIndex + 1) % |s.participants|])
  {
    var ps, idx := s.participants, s.currentRollerIndex;
    RemoveIdAt(ps, idx, ps[idx].id);
    var rest := ps[..idx] + ps[idx + 1..];
    ModOnce(idx + 1, |ps|);
    if idx + 1 < |ps| {
      assert rest[idx] == ps[idx + 1];
    } else {
      assert rest[0] == ps[0];
    }
  }

  /** The index is not shifted when someone in front of the current roller leaves, so
      the turn skips over the participant who held it, to the one behind them. */
  lemma RemoveBeforeCurrentSkipsRoller(s: SessionState, j: nat)
    requires ValidState(s) && j < s.currentRollerIndex
    ensures Remove(s, s.participants[j].id).Some?
    ensures CurrentRoller(Remove(s, s.participants[j].id).value) ==
      Some(if s.currentRollerIndex + 1 < |s.participants| then s.participants[s.currentRollerIndex + 1]
           else if j == 0 then s.participants[1]
           else s.participants[0])
  {
    var ps, idx := s.participants, s.currentRollerIndex;
    RemoveIdAt(ps, j, ps[j].id);
    var rest := ps[..j] + ps[j + 1..];
    if idx + 1 < |ps| {
      assert rest[idx] == ps[idx + 1];
    } else if j == 0 {
      assert rest[0] == ps[1];
    } else {
      assert rest[0] == ps[0];
    }
  }

  /** Once the host's id leaves while others remain, the session survives with the
      stale host id, and no remaining participant passes the host gate. */
  lemma HostLossLocksHostActions(s: SessionState)
    requires ValidState(s) && HasId(s.participants, s.host) && |s.participants| > 1
    ensures Remove(s, s.host).Some?
    ensures Remove(s, s.host).value.host == s.host
    ensures forall p :: p in Remove(s, s.host).value.participants ==> !IsHost(Remove(s, s.host).value, p.id)
  {
    var j :| 0 <= j < |s.participants| && s.participants[j].id == s.host;
    RemoveIdAt(s.participants, j, s.host);
    forall p | p in Remove(s, s.host).value.participants ensures p.id != s.host {
      RemoveIdMember(s.participants, s.host, p);
    }
  }

  /** The roll record of a successful `rollDice` by the current roller. */
  function RollBy(s: SessionState, value: int, now: int): (roll: DiceRoll)
    requires CurrentRoller(s).Some?
    ensures MayRoll(s, roll.rollerId)
    ensures roll.rollerNickname == CurrentRoller(s).value.nickname
    ensures roll.value == value && roll.timestamp == now
  {
    DiceRoll(value, CurrentRoller(s).value.id, CurrentRoller(s).value.nickname, now)
  }

  /** The state after a successful roll: one more roll counted and the roll recorded;
      membership, turn and host untouched. */
  function Rolled(s: SessionState, roll: DiceRoll): (r: SessionState)
    ensures r.rollCount == s.rollCount + 1 && r.lastRoll == Some(roll)
    ensures r.(rollCount := s.rollCount, lastRoll := s.lastRoll) == s
    ensures ValidState(s) ==> ValidState(r)
  {
    s.(lastRoll := Some(roll), rollCount := s.rollCount + 1)
  }

  /** The state after a successful `advanceRound`: the turn moves one place along,
      wrapping at the end of the list; nothing else changes. */
  function Advance(s: SessionState): (r: SessionState)
    requires |s.participants| > 0
    ensures r.currentRollerIndex == (s.currentRollerIndex + 1) % |s.participants|
    ensures r.(currentRollerIndex := s.currentRollerIndex) == s
    ensures ValidState(s) ==> ValidState(r)
  {
    s.(currentRollerIndex := (s.currentRollerIndex + 1) % |s.participants|)
  }

  /** `k` successive advances. */
  function AdvanceTimes(s: SessionState, k: nat): (r: SessionState)
    requires |s.participants| > 0
    ensures r.(currentRollerIndex := s.currentRollerIndex) == s
  {
    if k == 0 then s else Advance(AdvanceTimes(s, k - 1))
  }

  /** Within one round (`k` at most the list length) the turn sits `k` places further
      along after `k` advances, wrapping past the end of the list. */
  lemma {:induction false} AdvanceTimesIndex(s: SessionState, k: nat)
    requires ValidState(s) && k <= |s.participants|
    ensures ValidState(AdvanceTimes(s, k))
    ensures AdvanceTimes(s, k).currentRollerIndex == (s.currentRollerIndex + k) % |s.participants|
  {
    if k > 0 {
      var n, idx := |s.participants|, s.currentRollerIndex;
      AdvanceTimesIndex(s, k - 1);
      ModOnce(idx + k - 1, n);
      ModOnce(idx + k, n);
      if idx + k - 1 < n {
        ModOnce(idx + k, n);
      } else {
        ModOnce(idx + k - n, n);
      }
    }
  }

  /** Reduction modulo `n` of a value below `2 * n`. */
  lemma ModOnce(x: int, n: int)
    requires 0 < n && 0 <= x < 2 * n
    ensures x % n == if x < n then x else x - n
  {
  }

  /** Every participant gets the turn within one full round of advances. */
  lemma EveryoneGetsATurn(s: SessionState, j: nat)
    requires ValidState(s) && j < |s.participants|
    ensures exists k :: 0 <= k < |s.participants| && CurrentRoller(AdvanceTimes(s, k)) == Some(s.participants[j])
  {
    var n := |s.participants|;
    var idx := s.currentRollerIndex;
    var k := if j >= idx then j - idx else j + n - idx;
    AdvanceTimesIndex(s, k);
    ModOnce(idx + k, n);
    var t := AdvanceTimes(s, k);
    assert t.participants == s.participants;
    assert t.currentRollerIndex == j;
    assert 0 <= k < n && CurrentRoller(t) == Some(s.participants[j]);
  }

  /** A full round of advances brings the turn back to where it started. */
  lemma FullRoundReturns(s: SessionState)
    requires ValidState(s)
    ensures AdvanceTimes(s, |s.participants|) == s
  {
    var n := |s.participants|;
    AdvanceTimesIndex(s, n);
    ModOnce(s.currentRollerIndex + n, n);
  }

  /** The state after a successful `resetCounter`: the counter is zero and nothing else
      changes; in particular the last roll stays on display. */
  function Reset(s: SessionState): (r: SessionState)
    ensures r.rollCount == 0
    ensures r.(rollCount := s.rollCount) == s
    ensures ValidState(s) ==> ValidState(r)
  {
    s.(rollCount := 0)
  }
}
