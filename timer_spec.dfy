/** The timer registry of the oral-board timer service, as values.

    A registry is a table from (user id, case number) to a timer record.
    Each function below states what one request does to such a table:
    the lazy sweep (`Tick`), starting, reading and canceling a case timer.
    Wall-clock time is an integer number of seconds `now`, and the timer
    id that the service draws at random is passed in. */
module TimerSpec {

  /** The three values of a timer's `status` string. */
  datatype Status = Running | Expired | Canceled

  /** One timer record, field for field as the service stores it. */
  datatype Timer = Timer(
    timerId: string,
    userId: string,
    caseNumber: int,
    durationSeconds: int,
    remainingSeconds: int,
    status: Status,
    startedAt: int)

  /** The two failures a request can report. */
  datatype Error = Conflict | NotFound

  datatype Result<T> = Ok(value: T) | Err(error: Error)

  /** A registry key: the user id and the case number. */
  type Key = (string, int)

  type Table = map<Key, Timer>

  /** Case numbers the routes accept. */
  predicate ValidCase(caseNumber: int) {
    1 <= caseNumber <= 4
  }

  /** The seconds left of a countdown of `durationSeconds` begun at
      `startedAt`, read at `now`: never negative, zero exactly when the
      elapsed time has reached the duration, otherwise the exact difference. */
  function Remaining(durationSeconds: int, startedAt: int, now: int): (r: int)
    ensures r >= 0
    ensures r == 0 <==> now - startedAt >= durationSeconds
    ensures r != 0 ==> r + (now - startedAt) == durationSeconds
  {
    var left := durationSeconds - (now - startedAt);
    if left > 0 then left else 0
  }

  /** `u` differs from `t` at most in the two fields the sweep and
      cancellation write: `remainingSeconds` and `status`. */
  predicate SameTimer(t: Timer, u: Timer) {
    u == t.(remainingSeconds := u.remainingSeconds, status := u.status)
  }

  /** The sweep applied to one record. */
  function TickTimer(t: Timer, now: int): (u: Timer)
    ensures SameTimer(t, u)
    ensures t.status != Running ==> u == t
    ensures t.status == Running ==>
              && u.remainingSeconds == Remaining(t.durationSeconds, t.startedAt, now)
              && u.status != Canceled
              && (u.status == Expired <==> u.remainingSeconds == 0)
  {
    if t.status != Running then t
    else
      var newRemaining := Remaining(t.durationSeconds, t.startedAt, now);
      var u := t.(remainingSeconds := newRemaining);
      if newRemaining == 0 then u.(status := Expired) else u
  }

  /** The lazy sweep over the whole table: same keys, every record swept,
      and no record left running with nothing left on its clock. */
  function Tick(m: Table, now: int): (m': Table)
    ensures m'.Keys == m.Keys
    ensures forall k :: k in m ==> m'[k] == TickTimer(m[k], now)
    ensures forall k :: k in m' && m'[k].status == Running ==> m'[k].remainingSeconds > 0
  {
    map k | k in m :: TickTimer(m[k], now)
  }

  /** The record a successful start stores. */
  function NewTimer(userId: string, caseNumber: int, durationSeconds: int, now: int, timerId: string): Timer {
    Timer(timerId, userId, caseNumber, durationSeconds, durationSeconds, Running, now)
  }

  /** Starting a case timer: sweep, then refuse with Conflict if the key
      still holds a running timer, else store a fresh running record. */
  function Start(m: Table, userId: string, caseNumber: int, durationSeconds: int, now: int, timerId: string)
    : (out: (Result<Timer>, Table))
    requires ValidCase(caseNumber)
    ensures out.0 == Err(Conflict) || out.0 == Ok(NewTimer(userId, caseNumber, durationSeconds, now, timerId))
    ensures out.0.Err? <==>
              (userId, caseNumber) in m && TickTimer(m[(userId, caseNumber)], now).status == Running
    ensures out.1.Keys == m.Keys + {(userId, caseNumber)}
    ensures forall k :: k in m && k != (userId, caseNumber) ==> out.1[k] == TickTimer(m[k], now)
    ensures out.0.Ok? ==> out.1[(userId, caseNumber)] == out.0.value
  {
    var ticked := Tick(m, now);
    var key := (userId, caseNumber);
    if key in ticked && ticked[key].status == Running then
      (Err(Conflict), ticked)
    else
      var timer := NewTimer(userId, caseNumber, durationSeconds, now, timerId);
      (Ok(timer), ticked[key := timer])
  }

  /** Reading a case timer: sweep, then look the key up. */
  function Get(m: Table, userId: string, caseNumber: int, now: int): (out: (Result<Timer>, Table))
    requires ValidCase(caseNumber)
    ensures out.0 == Err(NotFound) <==> (userId, caseNumber) !in m
    ensures (userId, caseNumber) in m ==> out.0 == Ok(TickTimer(m[(userId, caseNumber)], now))
    ensures out.1.Keys == m.Keys
  {
    var ticked := Tick(m, now);
    var key := (userId, caseNumber);
    if key !in ticked then (Err(NotFound), ticked) else (Ok(ticked[key]), ticked)
  }

  /** Canceling a case timer: mark an existing record canceled, without a
      sweep; an absent key is not an error. */
  function Cancel(m: Table, userId: string, caseNumber: int): (m': Table)
    requires ValidCase(caseNumber)
    ensures m'.Keys == m.Keys
    ensures forall k :: k in m && k != (userId, caseNumber) ==> m'[k] == m[k]
    ensures (userId, caseNumber) in m ==>
              var t := m[(userId, caseNumber)];
              m'[(userId, caseNumber)] == t.(status := Canceled)
  {
    var key := (userId, caseNumber);
    if key in m then m[key := m[key].(status := Canceled)] else m
  }

  /** What every stored record satisfies: it is filed under its own user
      and case, it started no later than `clock` (the latest time any
      request has seen), an expired record has nothing left, and no record
      shows more time left than its configured duration (or zero). */
  predicate WellFormedAt(k: Key, t: Timer, clock: int) {
    && t.userId == k.0
    && t.caseNumber == k.1
    && ValidCase(k.1)
    && t.startedAt <= clock
    && (t.status == Expired ==> t.remainingSeconds == 0)
    && t.remainingSeconds <= (if t.durationSeconds > 0 then t.durationSeconds else 0)
  }

  predicate Consistent(m: Table, clock: int) {
    forall k :: k in m ==> WellFormedAt(k, m[k], clock)
  }
}
