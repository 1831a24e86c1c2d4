/**
 * The client's roll queue: who rolls now and the (at most five) participants who
 * follow, computed from the broadcast `participants` and `currentRollerIndex`.
 */
module Queue {
  import opened Types
  import Session

  /** How many upcoming rollers the queue shows. */
  const MaxShown: nat := 5

  /** The smaller of `a` and `b`. */
  function Min(a: int, b: int): (r: int)
    ensures r <= a && r <= b && (r == a || r == b)
  {
    if a < b then a else b
  }

  /** `Array.prototype.slice(start, end)` for non-negative bounds: both bounds clamp to
      the length, and a range that is empty after clamping gives `[]`. */
  function Slice<T>(s: seq<T>, start: nat, end: nat): (r: seq<T>)
    ensures |r| == if Min(end, |s|) > Min(start, |s|) then Min(end, |s|) - Min(start, |s|) else 0
    ensures forall k :: 0 <= k < |r| ==> start + k < |s| && r[k] == s[start + k]
  {
    var lo, hi := Min(start, |s|), Min(end, |s|);
    if lo < hi then s[lo..hi] else []
  }

  /** `[...ps.slice(idx + 1), ...ps.slice(0, idx)].slice(0, 5)`: the participants after
      the current roller, wrapping round to the head of the list, at most five of them. */
  function NextRollers(ps: seq<Participant>, idx: nat): (r: seq<Participant>)
    ensures |r| <= MaxShown
    ensures forall p :: p in r ==> p in ps
  {
    Slice(Slice(ps, idx + 1, |ps|) + Slice(ps, 0, idx), 0, MaxShown)
  }

  /** With the index inside the list the queue holds everyone but the current roller,
      up to five. */
  lemma NextRollersLength(ps: seq<Participant>, idx: nat)
    requires idx < |ps|
    ensures |NextRollers(ps, idx)| == Min(MaxShown, |ps| - 1)
  {
    var after, before := Slice(ps, idx + 1, |ps|), Slice(ps, 0, idx);
    assert |after + before| == |ps| - 1;
  }

  /** With the index inside the list, entry `k` of the queue is the participant `k + 1`
      places after the current roller, cyclically. */
  lemma NextRollersAt(ps: seq<Participant>, idx: nat, k: nat)
    requires idx < |ps| && k < |NextRollers(ps, idx)|
    ensures NextRollers(ps, idx)[k] == ps[(idx + 1 + k) % |ps|]
  {
    var n := |ps|;
    var after, before := Slice(ps, idx + 1, n), Slice(ps, 0, idx);
    var joined := after + before;
    assert |after| == n - idx - 1 && |before| == idx;
    assert NextRollers(ps, idx) == Slice(joined, 0, MaxShown);
    assert NextRollers(ps, idx)[k] == joined[k];
    Session.ModOnce(idx + 1 + k, n);
    if k < |after| {
      assert joined[k] == after[k] == ps[idx + 1 + k];
    } else {
      assert joined[k] == before[k - |after|] == ps[k - |after|];
    }
  }

  /** With the index inside the list and distinct ids, the current roller is never
      listed among the next rollers. */
  lemma NextRollersExcludeCurrent(ps: seq<Participant>, idx: nat)
    requires idx < |ps| && DistinctIds(ps)
    ensures forall p :: p in NextRollers(ps, idx) ==> p.id != ps[idx].id
  {
    var n := |ps|;
    var r := NextRollers(ps, idx);
    NextRollersLength(ps, idx);
    forall p | p in r ensures p.id != ps[idx].id {
      var k :| 0 <= k < |r| && r[k] == p;
      var i := (idx + 1 + k) % n;
      NextRollersAt(ps, idx, k);
      Session.ModOnce(idx + 1 + k, n);
      assert p == ps[i] && i != idx;
      if i < idx {
        assert ps[i].id != ps[idx].id;
      } else {
        assert ps[idx].id != ps[i].id;
      }
    }
  }

  /** With distinct ids the queue lists nobody twice (its entries serve as keys when
      rendered). */
  lemma NextRollersDistinct(ps: seq<Participant>, idx: nat)
    requires idx < |ps| && DistinctIds(ps)
    ensures DistinctIds(NextRollers(ps, idx))
  {
    var n := |ps|;
    var r := NextRollers(ps, idx);
    NextRollersLength(ps, idx);
    forall i, j | 0 <= i < j < |r| ensures r[i].id != r[j].id {
      var a, b := (idx + 1 + i) % n, (idx + 1 + j) % n;
      NextRollersAt(ps, idx, i);
      NextRollersAt(ps, idx, j);
      Session.ModOnce(idx + 1 + i, n);
      Session.ModOnce(idx + 1 + j, n);
      assert r[i] == ps[a] && r[j] == ps[b];
      assert a != b;
      if a < b {
        assert ps[a].id != ps[b].id;
      } else {
        assert ps[b].id != ps[a].id;
      }
    }
  }

  /** With the index past the end there is no current roller, and since
      `slice(idx + 1)` is empty and `slice(0, idx)` clamps to the whole list, the queue
      is the first five participants in order. */
  lemma NextRollersPastEnd(ps: seq<Participant>, idx: nat)
    requires idx >= |ps|
    ensures At(ps, idx).None?
    ensures NextRollers(ps, idx) == ps[..Min(MaxShown, |ps|)]
  {
    assert Slice(ps, idx + 1, |ps|) == [];
    assert Slice(ps, 0, idx) == ps;
    assert [] + ps == ps;
  }

  /** The queue the client shows agrees with the server's rotation: entry `k` is the
      participant whose turn it will be after `k + 1` round advances. */
  lemma NextRollersAreUpcomingTurns(s: SessionState, k: nat)
    requires Session.ValidState(s)
    requires k < |NextRollers(s.participants, s.currentRollerIndex)|
    ensures Session.CurrentRoller(Session.AdvanceTimes(s, k + 1)) ==
      Some(NextRollers(s.participants, s.currentRollerIndex)[k])
  {
    NextRollersLength(s.participants, s.currentRollerIndex);
    NextRollersAt(s.participants, s.currentRollerIndex, k);
    Session.AdvanceTimesIndex(s, k + 1);
    var ps, i := s.participants, (s.currentRollerIndex + 1 + k) % |s.participants|;
    var t := Session.AdvanceTimes(s, k + 1);
    assert t.participants == ps && t.currentRollerIndex == i;
    assert Session.CurrentRoller(t) == Some(ps[i]);
  }
}
