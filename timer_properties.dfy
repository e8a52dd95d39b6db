/** Properties of the timer registry that relate several requests, or a
    request and the invariant of the table. */
module TimerProperties {
  import opened TimerSpec

  /** A running timer swept at `now` shows max(duration - elapsed, 0) and
      is expired exactly when that is zero; a record that was not running
      is left exactly as it was. */
  lemma TickRecord(m: Table, now: int, k: Key)
    requires k in m
    ensures k in Tick(m, now)
    ensures m[k].status == Running ==>
              var d := m[k].durationSeconds - (now - m[k].startedAt);
              && Tick(m, now)[k].remainingSeconds == (if d > 0 then d else 0)
              && (Tick(m, now)[k].status == Expired <==> Tick(m, now)[k].remainingSeconds == 0)
              && (Tick(m, now)[k].status == Running <==> Tick(m, now)[k].remainingSeconds > 0)
    ensures m[k].status != Running ==> Tick(m, now)[k] == m[k]
  {
  }

  /** Sweeping one record at `t1` and again at a later `t2` is the same as
      sweeping it once at `t2`: once time has run out it stays out. */
  lemma TickTimerLater(t: Timer, t1: int, t2: int)
    requires t1 <= t2
    ensures TickTimer(TickTimer(t, t1), t2) == TickTimer(t, t2)
  {
  }

  /** The lazy sweep composes: a table swept at `t1` and then at `t2 >= t1`
      equals the table swept only at `t2`. So it does not matter how many
      requests swept in between; what a request sees depends only on its
      own time. */
  lemma TickLater(m: Table, t1: int, t2: int)
    requires t1 <= t2
    ensures Tick(Tick(m, t1), t2) == Tick(m, t2)
  {
  }

  /** Two sweeps at the same time give what one gives: `TickLater` with
      both times equal. */
  lemma TickIdempotent(m: Table, now: int)
    ensures Tick(Tick(m, now), now) == Tick(m, now)
  {
    TickLater(m, now, now);
  }

  /** Time only counts down: between two sweeps at `t1 <= t2`, no record's
      remaining time grows and no expired record comes back. */
  lemma TickCountsDown(m: Table, t1: int, t2: int, k: Key)
    requires t1 <= t2 && k in m
    ensures Tick(m, t2)[k].remainingSeconds <= Tick(m, t1)[k].remainingSeconds
    ensures Tick(m, t1)[k].status == Expired ==> Tick(m, t2)[k].status == Expired
  {
  }

  /** Start refuses with Conflict exactly when the key holds a record that
      is running and whose time has not run out by `now`; on a conflict the
      table is the swept table and nothing else. A record whose time ran
      out but was not yet swept does not block a restart. */
  lemma StartConflict(m: Table, userId: string, caseNumber: int, durationSeconds: int, now: int, timerId: string)
    requires ValidCase(caseNumber)
    ensures var key := (userId, caseNumber);
            var out := Start(m, userId, caseNumber, durationSeconds, now, timerId);
            && (out.0 == Err(Conflict) <==>
                 key in m && m[key].status == Running && now - m[key].startedAt < m[key].durationSeconds)
            && (out.0 == Err(Conflict) ==> out.1 == Tick(m, now))
  {
  }

  /** A successful start stores a running record with the full duration
      left, started at `now`, under its key, whatever was there before
      (an expired or canceled record is overwritten); every other key holds
      what the sweep left. */
  lemma StartStores(m: Table, userId: string, caseNumber: int, durationSeconds: int, now: int, timerId: string)
    requires ValidCase(caseNumber)
    requires Start(m, userId, caseNumber, durationSeconds, now, timerId).0.Ok?
    ensures var key := (userId, caseNumber);
            var out := Start(m, userId, caseNumber, durationSeconds, now, timerId);
            && out.1 == Tick(m, now)[key := out.0.value]
            && out.0.value.status == Running
            && out.0.value.remainingSeconds == durationSeconds
            && out.0.value.durationSeconds == durationSeconds
            && out.0.value.startedAt == now
            && out.0.value.timerId == timerId
  {
  }

  /** Get never adds a record: it leaves the swept table, and reports the
      swept record of the key or NotFound. */
  lemma GetReads(m: Table, userId: string, caseNumber: int, now: int)
    requires ValidCase(caseNumber)
    ensures var key := (userId, caseNumber);
            var out := Get(m, userId, caseNumber, now);
            && out.1 == Tick(m, now)
            && (key in m ==> out.0 == Ok(Tick(m, now)[key]))
  {
  }

  /** Cancel on an absent key changes nothing. */
  lemma CancelAbsent(m: Table, userId: string, caseNumber: int)
    requires ValidCase(caseNumber) && (userId, caseNumber) !in m
    ensures Cancel(m, userId, caseNumber) == m
  {
  }

  /** A canceled record is frozen: no later sweep touches it, so its
      remaining time stays what the last sweep before the cancel left. */
  lemma CancelFreezes(m: Table, userId: string, caseNumber: int, now: int)
    requires ValidCase(caseNumber) && (userId, caseNumber) in m
    ensures var c := Cancel(m, userId, caseNumber);
            && c[(userId, caseNumber)].status == Canceled
            && c[(userId, caseNumber)].remainingSeconds == m[(userId, caseNumber)].remainingSeconds
            && Tick(c, now)[(userId, caseNumber)] == c[(userId, caseNumber)]
  {
  }

  /** After a cancel, a start on the same key always succeeds. */
  lemma CancelThenStart(m: Table, userId: string, caseNumber: int, durationSeconds: int, now: int, timerId: string)
    requires ValidCase(caseNumber)
    ensures Start(Cancel(m, userId, caseNumber), userId, caseNumber, durationSeconds, now, timerId).0.Ok?
  {
  }

  /** Starting a case twice while the first countdown still has time left
      yields Conflict, and the first record stays. */
  lemma StartTwiceConflicts(
    m: Table, userId: string, caseNumber: int,
    d1: int, t1: int, id1: string, d2: int, t2: int, id2: string)
    requires ValidCase(caseNumber)
    requires Start(m, userId, caseNumber, d1, t1, id1).0.Ok?
    requires t1 <= t2 && t2 - t1 < d1
    ensures var m1 := Start(m, userId, caseNumber, d1, t1, id1).1;
            var out := Start(m1, userId, caseNumber, d2, t2, id2);
            && out.0 == Err(Conflict)
            && out.1[(userId, caseNumber)].timerId == id1
  {
  }

  /** A timer started at `t0` and read by the very next request, at
      `t1 >= t0`, reports max(duration - (t1 - t0), 0) seconds and
      is expired exactly when that is zero (a 5-second timer read after 6
      seconds is expired with 0 left). */
  lemma StartThenGet(
    m: Table, userId: string, caseNumber: int, durationSeconds: int, t0: int, timerId: string, t1: int)
    requires ValidCase(caseNumber)
    requires Start(m, userId, caseNumber, durationSeconds, t0, timerId).0.Ok?
    requires t0 <= t1
    ensures var m1 := Start(m, userId, caseNumber, durationSeconds, t0, timerId).1;
            var out := Get(m1, userId, caseNumber, t1);
            && out.0.Ok?
            && out.0.value.remainingSeconds == Remaining(durationSeconds, t0, t1)
            && (out.0.value.status == Expired <==> t1 - t0 >= durationSeconds)
            && (out.0.value.status == Running <==> t1 - t0 < durationSeconds)
  {
  }

  /** A start canceled before any sweep leaves a canceled record whose
      remaining time is the full duration; the next read, at any time,
      reports it unchanged, so a negative duration is reported as is. */
  lemma CanceledBeforeSweep(
    m: Table, userId: string, caseNumber: int, durationSeconds: int, t0: int, timerId: string, t1: int)
    requires ValidCase(caseNumber)
    requires Start(m, userId, caseNumber, durationSeconds, t0, timerId).0.Ok?
    ensures var m1 := Start(m, userId, caseNumber, durationSeconds, t0, timerId).1;
            var out := Get(Cancel(m1, userId, caseNumber), userId, caseNumber, t1);
            && out.0 == Ok(NewTimer(userId, caseNumber, durationSeconds, t0, timerId).(status := Canceled))
            && out.0.value.remainingSeconds == durationSeconds
  {
  }

  /** The sweep keeps the table consistent and moves its clock to `now`. */
  lemma TickConsistent(m: Table, clock: int, now: int)
    requires Consistent(m, clock) && clock <= now
    ensures Consistent(Tick(m, now), now)
  {
  }

  /** A start, successful or not, keeps the table consistent. */
  lemma StartConsistent(m: Table, clock: int, userId: string, caseNumber: int, durationSeconds: int, now: int, timerId: string)
    requires Consistent(m, clock) && clock <= now && ValidCase(caseNumber)
    ensures Consistent(Start(m, userId, caseNumber, durationSeconds, now, timerId).1, now)
  {
  }

  /** A cancel keeps the table consistent. */
  lemma CancelConsistent(m: Table, clock: int, userId: string, caseNumber: int)
    requires Consistent(m, clock) && ValidCase(caseNumber)
    ensures Consistent(Cancel(m, userId, caseNumber), clock)
  {
  }
}
