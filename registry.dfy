/** The timer registry as the service holds it: one table of timer
    records, updated in place by each request. */
module TimerRegistry {
  import opened TimerSpec
  import TimerProperties

  class Registry {
    /** The records, keyed by (user id, case number). */
    var timers: Table
    /** The latest time any request has brought; wall-clock time is taken
        not to run backwards. */
    ghost var clock: int

    ghost predicate Valid()
      reads this
    {
      Consistent(timers, clock)
    }

    /** An empty registry; `epoch` is the time it comes up. */
    constructor (ghost epoch: int)
      ensures Valid()
      ensures timers == map[] && clock == epoch
    {
      timers := map[];
      clock := epoch;
    }

    /** The lazy sweep: every running record is given its remaining time as
        of `now`, and is marked expired when that is zero. */
    method Tick(now: int)
      requires Valid() && clock <= now
      modifies this
      ensures Valid() && clock == now
      ensures timers == TimerSpec.Tick(old(timers), now)
    {
      ghost var before := timers;
      var pending := timers.Keys;
      while pending != {}
        invariant clock == old(clock)
        invariant pending <= before.Keys
        invariant timers.Keys == before.Keys
        invariant forall k :: k in before && k !in pending ==> timers[k] == TickTimer(before[k], now)
        invariant forall k :: k in pending ==> timers[k] == before[k]
        decreases pending
      {
        var key :| key in pending;
        var t := timers[key];
        if t.status == Running {
          var newRemaining := Remaining(t.durationSeconds, t.startedAt, now);
          t := t.(remainingSeconds := newRemaining);
          if newRemaining == 0 {
            t := t.(status := Expired);
          }
          timers := timers[key := t];
        }
        pending := pending - {key};
      }
      TimerProperties.TickConsistent(before, clock, now);
      clock := now;
    }

    /** Start the timer of one case: Conflict while the case's timer is
        still running after the sweep, otherwise a fresh running record. */
    method Start(userId: string, caseNumber: int, durationSeconds: int, now: int, timerId: string)
      returns (r: Result<Timer>)
      requires Valid() && clock <= now && ValidCase(caseNumber)
      modifies this
      ensures Valid() && clock == now
      ensures (r, timers) == TimerSpec.Start(old(timers), userId, caseNumber, durationSeconds, now, timerId)
    {
      TimerProperties.StartConsistent(timers, clock, userId, caseNumber, durationSeconds, now, timerId);
      Tick(now);
      var key := (userId, caseNumber);
      if key in timers && timers[key].status == Running {
        return Err(Conflict);
      }
      var timer := NewTimer(userId, caseNumber, durationSeconds, now, timerId);
      timers := timers[key := timer];
      r := Ok(timer);
    }

    /** Read the timer of one case after the sweep, or NotFound. */
    method Get(userId: string, caseNumber: int, now: int) returns (r: Result<Timer>)
      requires Valid() && clock <= now && ValidCase(caseNumber)
      modifies this
      ensures Valid() && clock == now
      ensures (r, timers) == TimerSpec.Get(old(timers), userId, caseNumber, now)
    {
      Tick(now);
      var key := (userId, caseNumber);
      if key !in timers {
        return Err(NotFound);
      }
      r := Ok(timers[key]);
    }

    /** Cancel the timer of one case, if there is one; no sweep. */
    method Cancel(userId: string, caseNumber: int)
      requires Valid() && ValidCase(caseNumber)
      modifies this
      ensures Valid() && clock == old(clock)
      ensures timers == TimerSpec.Cancel(old(timers), userId, caseNumber)
    {
      TimerProperties.CancelConsistent(timers, clock, userId, caseNumber);
      var key := (userId, caseNumber);
      if key in timers {
        timers := timers[key := timers[key].(status := Canceled)];
      }
    }
  }
}
