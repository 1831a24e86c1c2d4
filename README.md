# Dice session registry

A model of the server-side session registry of a shared dice-rolling app, and of
the client's roll queue.

A session is created by a host and then joined by other participants. Turns pass
round the participant list. Only the participant whose turn it is may roll. Only
the host may pass the turn on or reset the roll counter. When the last
participant leaves, the session is deleted, and a periodic sweep removes sessions
past a maximum age.

- `types.dfy` (module `Types`): the records the registry builds. These are
  `Participant`, `DiceRoll`, `SessionState` and `SessionData`. The module also
  holds JavaScript-style array indexing (`At`) and the id predicates `HasId` and
  `DistinctIds`.
- `session.dfy` (module `Session`): the rules for one session, written as
  functions on `SessionState` values. It defines the session invariant
  `ValidState` (non-empty participant list, distinct ids, an in-range roller
  index, only the host's id flagged as host). The lemmas cover the `filter`,
  the turn rotation, and what a removal does to the turn and to the host gate.
- `registry.dfy` (module `Registry`): class `SessionManager`. Its field
  `sessions: map<string, SessionData>` is updated in place by one method per
  operation of the server's `SessionManager`. Every method keeps `Valid()`, the
  invariant of all stored sessions. Every method also states its new map in
  terms of the old one and the session rules.
- `queue.dfy` (module `Queue`): the queue's "next rollers" list. It is computed
  from `participants` and `currentRollerIndex` with JavaScript `slice` clamping.
  One lemma shows that the queue agrees with the server's rotation.

The model follows the state shape that `server/src/SessionManager.ts` builds:
a turn-ordered session with `currentRollerIndex`, `rollCount` and `lastRoll`.
`server/src/types.ts` declares a different record shape that
`SessionManager.ts` does not build: a waiting list, an `isAccepted` flag and a
`rollCount` on each participant, a roll history and a total roll count, and no
`currentRollerIndex`. `client/src/types/index.ts` declares a roll history and
counts in the same way. No operation in `SessionManager.ts` uses these fields.
Where the declarations and `SessionManager.ts` disagree, this model follows
`SessionManager.ts`. These behaviours of `SessionManager.ts` are kept as
written:

- creating a session overwrites any session already stored under the same id;
- removing someone in front of the current roller does not shift the index, so
  the turn skips to the participant behind the one who held it;
- the host id is never reassigned, so once the host leaves, no remaining
  participant can advance the round or reset the counter;
- resetting the counter leaves `lastRoll` as it was.

## Model

| member | source | states |
|---|---|---|
| `Session.CurrentRoller` | server/src/SessionManager.ts:89 | the participant at the roller index, absent exactly when the index is past the end; always present in a valid session |
| `Session.MayRoll` | server/src/SessionManager.ts:89-93 | only a participant passes the turn gate; in a valid session exactly the one at the roller index does |
| `Session.IsHost` | server/src/SessionManager.ts:118 | the host gate compares with the stored host id only; in a valid session every participant flagged host passes it, and whoever passes it is the only id a flag can carry |
| `Session.FindById` | server/src/SessionManager.ts:45-47 | absent exactly when no participant carries the id; otherwise the first participant carrying it |
| `Session.RemoveId` | server/src/SessionManager.ts:68-70 | the filtered list is never longer than the original |
| `Session.RemoveIdMember` | server/src/SessionManager.ts:68-70 | an entry survives the filter exactly when it was in the list and its id differs from the removed one |
| `Session.RemoveIdAppend` | server/src/SessionManager.ts:68-70 | filtering distributes over concatenation, so the survivors keep their original order |
| `Session.RemoveIdAbsent` | server/src/SessionManager.ts:68-70 | filtering out an id nobody carries leaves the list unchanged |
| `Session.RemoveIdDistinct` | server/src/SessionManager.ts:68-70 | filtering keeps ids pairwise distinct |
| `Session.RemoveIdAt` | server/src/SessionManager.ts:68-70 | with distinct ids, removing the id at position j removes exactly that one entry |
| `Session.NewSession` | server/src/SessionManager.ts:13-26 | a new session is valid; the creator is its sole participant, flagged host, stored as host and current roller; count 0, no last roll |
| `Session.Join` | server/src/SessionManager.ts:44-58 | a known id changes nothing (reconnect); a new id is appended at the tail as a non-host and earlier entries are kept; afterwards the id is present; only the list changes; validity is preserved |
| `Session.JoinIdempotent` | server/src/SessionManager.ts:44-60 | joining twice with one id equals joining once |
| `Session.Remove` | server/src/SessionManager.ts:64-81 | on a valid session, the session is deleted exactly when its only participant leaves; otherwise the list is filtered and the index reset to 0 only when out of range; host and other fields kept; validity preserved; no-op for an absent id |
| `Session.RemoveAfterCurrentKeepsTurn` | server/src/SessionManager.ts:68-75 | removing someone behind the current roller leaves the same participant on turn |
| `Session.RemoveCurrentPassesTurn` | server/src/SessionManager.ts:68-75 | removing the current roller hands the turn to the next participant, cyclically |
| `Session.RemoveBeforeCurrentSkipsRoller` | server/src/SessionManager.ts:68-75 | removing someone in front of the current roller moves the turn past the one who held it: to the next participant, or, when the roller was last and the index resets to 0, to the new head of the list |
| `Session.HostLossLocksHostActions` | server/src/SessionManager.ts:63-82 | when the host's id leaves and others remain, the session survives, keeps the stale host id, and no remaining participant passes the host gate |
| `Session.RollBy` | server/src/SessionManager.ts:95-102 | the roll carries the given value and time, the current roller's id and nickname, and passes the turn gate |
| `Session.Rolled` | server/src/SessionManager.ts:104-105 | the count rises by exactly one and the last roll becomes the new roll; participants, turn and host unchanged; validity preserved |
| `Session.Advance` | server/src/SessionManager.ts:122-123 | the index becomes (index + 1) mod list length; nothing else changes; validity preserved |
| `Session.AdvanceTimesIndex` | server/src/SessionManager.ts:122-123 | within one round, k advances move the index k places on modulo the list length and keep validity |
| `Session.EveryoneGetsATurn` | server/src/SessionManager.ts:122-123 | every participant becomes current roller within one round of advances |
| `Session.FullRoundReturns` | server/src/SessionManager.ts:122-123 | a full round of advances restores the session exactly |
| `Session.Reset` | server/src/SessionManager.ts:139 | the count becomes 0 and nothing else changes, the last roll included; validity preserved |
| `Registry.Swept` | server/src/SessionManager.ts:158-167 | a session survives the sweep exactly when now - createdAt does not exceed the age; survivors are unchanged; the registry invariant is kept |
| `Registry.SweptIdempotent` | server/src/SessionManager.ts:161-166 | a second sweep with the same time and age removes nothing more |
| `Registry.SweptMonotone` | server/src/SessionManager.ts:161-166 | a later sweep or a shorter age never keeps a session an earlier or more lenient sweep removed |
| `Registry.SessionManager.constructor` | server/src/SessionManager.ts:4 | the registry starts empty and valid |
| `Registry.SessionManager.CreateSession` | server/src/SessionManager.ts:10-35 | stores the new session under the given id, overwriting any entry with that id and keeping every other; returns the id; invariant kept |
| `Registry.SessionManager.JoinSession` | server/src/SessionManager.ts:37-61 | false and no change for an unknown session; true otherwise; no change for a known id; otherwise the session is replaced by its joined state; invariant kept |
| `Registry.SessionManager.RemoveParticipant` | server/src/SessionManager.ts:63-82 | no change for an unknown session or absent id; otherwise the session is deleted or replaced as the removal rule says; invariant kept |
| `Registry.SessionManager.RollDice` | server/src/SessionManager.ts:84-110 | returns a roll exactly when the session exists and the roller is on turn; otherwise no change; the roll has value in 1..6 and the roller's id; the session becomes its rolled state |
| `Registry.SessionManager.AdvanceRound` | server/src/SessionManager.ts:112-127 | succeeds exactly when the session exists and the requester is the stored host; otherwise no change; on success only the index advances |
| `Registry.SessionManager.ResetCounter` | server/src/SessionManager.ts:129-142 | succeeds exactly when the session exists and the requester is the stored host; otherwise no change; on success only the count is zeroed |
| `Registry.SessionManager.SessionExists` | server/src/SessionManager.ts:149-151 | true exactly when a session is stored under the id; in a valid registry that session is valid and filed under the id |
| `Registry.SessionManager.GetSessionState` | server/src/SessionManager.ts:144-151 | present exactly when the session exists; then it is the stored state, which is valid and carries the id asked for |
| `Registry.SessionManager.GetAllSessions` | server/src/SessionManager.ts:153-155 | every stored id appears, nothing else appears, and no id appears twice |
| `Registry.SessionManager.CleanupOldSessions` | server/src/SessionManager.ts:158-167 | the new map is the sweep of the old one at the given time and age; invariant kept |
| `Queue.Slice` | client/src/components/Queue.tsx:17-20 | length is the clamped range's size; entry k is s[start + k] |
| `Queue.NextRollers` | client/src/components/Queue.tsx:17-20 | at most five entries, all taken from the participant list |
| `Queue.NextRollersLength` | client/src/components/Queue.tsx:17-20 | with the index in range, the queue has min(5, n - 1) entries |
| `Queue.NextRollersAt` | client/src/components/Queue.tsx:17-20 | with the index in range, entry k is participant (index + 1 + k) mod n |
| `Queue.NextRollersExcludeCurrent` | client/src/components/Queue.tsx:16-20 | with the index in range and distinct ids, the current roller is not listed |
| `Queue.NextRollersDistinct` | client/src/components/Queue.tsx:17-20 | with the index in range and distinct ids, no participant is listed twice |
| `Queue.NextRollersPastEnd` | client/src/components/Queue.tsx:16-20 | with the index past the end there is no current roller and the queue is the first min(5, n) participants in order |
| `Queue.NextRollersAreUpcomingTurns` | client/src/components/Queue.tsx:17-20 | for a valid session, queue entry k is the current roller after k + 1 round advances |

## Left out

- `generateSessionId` (server/src/SessionManager.ts:6-8) draws a random token. `CreateSession` takes the session id as a parameter instead.
- The die value comes from `Math.random`. `RollDice` takes it as a parameter and requires it to lie in 1..6.
- Every `Date.now()` reading (creation time, roll timestamp, sweep time) is a `now` parameter.
- `console.log` output is not modelled. It is side output only.
- `GetAllSessions`: a Dafny map has no order, so the model does not capture that JavaScript's `Map` returns ids in insertion order. It promises each id exactly once, in some order.
- `GetSessionState` returns the stored state as a value. In JavaScript it returns the live stored object, which a caller could mutate. That aliasing is not modelled.
- Counters, indices and times are unbounded integers. JavaScript numbers are doubles, exact only up to 2^53.
- `server/src/server.ts` is not part of this model. It wires sockets, rooms, broadcasting, CORS and the sweep timer.
- The rendering of the queue (the JSX in client/src/components/Queue.tsx) and every other client component are not part of this model.
- The waiting list, acceptance flag, per-participant counts and roll history declared in `server/src/types.ts`, and the roll history and counts declared in `client/src/types/index.ts`, are used by no operation in `SessionManager.ts`, so they are not modelled.
