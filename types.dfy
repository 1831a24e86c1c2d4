/** The records that the session registry builds and stores. */
module Types {

  /** A value that may be absent (`null` / `undefined` on the JavaScript side). */
  datatype Option<T> = None | Some(value: T)

  /** One member of a session; `id` is the connection id of their socket. */
  datatype Participant = Participant(id: string, nickname: string, isHost: bool)

  /** The record of one successful roll. `timestamp` is a wall-clock reading in milliseconds. */
  datatype DiceRoll = DiceRoll(value: int, rollerId: string, rollerNickname: string, timestamp: int)

  /** The per-session state that is broadcast to every participant. */
  datatype SessionState = SessionState(
    sessionId: string,
    participants: seq<Participant>,
    currentRollerIndex: nat,
    rollCount: nat,
    lastRoll: Option<DiceRoll>,
    host: string)

  /** What the registry stores per session id: the state and its creation time in milliseconds. */
  datatype SessionData = SessionData(state: SessionState, createdAt: int)

  /** JavaScript array indexing `s[i]` for a non-negative index: `undefined` past the end. */
  function At<T>(s: seq<T>, i: nat): (r: Option<T>)
    ensures r.Some? <==> i < |s|
    ensures r.Some? ==> r.value == s[i]
  {
    if i < |s| then Some(s[i]) else None
  }

  /** Some participant in `ps` carries the id `id`. */
  predicate HasId(ps: seq<Participant>, id: string)
  {
    exists i :: 0 <= i < |ps| && ps[i].id == id
  }

  /** No two participants in `ps` share an id. */
  predicate DistinctIds(ps: seq<Participant>)
  {
    forall i, j :: 0 <= i < j < |ps| ==> ps[i].id != ps[j].id
  }
}
