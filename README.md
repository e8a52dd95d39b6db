# Oral board timer: the timer registry

The service keeps per-case countdown timers for users of an oral-exam
simulation. Each user has up to four cases (numbered 1 to 4), and each case
has at most one timer record. The records live in one in-memory table keyed
by (user id, case number). No background process counts down. Instead,
every start and every read first runs a lazy sweep (`tick`). The sweep
recomputes the remaining seconds of each running timer from the time
elapsed since it started, and marks it expired when nothing is left.
Cancel marks a record canceled and does not sweep.

The model has four modules:

- `TimerSpec` (timer_spec.dfy) holds the record, status and error types. It
  specifies each request as a function on a table value: `Tick`, `Start`,
  `Get` and `Cancel`, with the remaining-time formula `Remaining`. It also
  holds the table invariant `Consistent`.
- `TimerProperties` (timer_properties.dfy) holds the lemmas. They cover the
  sweep formula, which records the sweep leaves alone, idempotence and
  composition of sweeps, the conflict rule, what a start stores, what get
  and cancel leave unchanged, multi-request scenarios, and preservation of
  the invariant.
- `RequestStream` (request_stream.dfy) models the registry over its whole
  life, as a stream of start, get and cancel requests served one after
  another with non-decreasing times. Lemmas proved by induction over the
  stream show that the invariant always holds, that records are never
  deleted, and that any chain of sweeps collapses to the last one.
- `TimerRegistry` (registry.dfy) holds the class `Registry`. It owns the
  table as a field that its methods update in place. `Tick` is a loop over
  the keys that rewrites each running record, as the source does. Each
  method is proved equal to its `TimerSpec` function and keeps `Valid()`.

Wall-clock time is an integer number of seconds `now`, passed to each
request that reads the clock. The elapsed time `now - startedAt` stands for
the source's `int(elapsed)`. A ghost field `clock` records the latest `now`
seen. Requests require `now >= clock`, so the clock never runs backwards
and every record started no later than the current request. The random
timer id is a parameter. Case numbers outside 1 to 4 are refused by the
routes before any handler runs, so the model states them as a `requires`.

The source leaves durations unchecked, and the model follows it. A negative
or zero duration creates a running record whose remaining time is the
duration itself. The next sweep expires it, unless it is canceled first;
a canceled record keeps that negative remaining time, since no sweep
touches a canceled record. For this reason the invariant bounds remaining time by
`max(duration, 0)` from above and does not bound it by zero from below.

## Model

| member | source | states |
|---|---|---|
| TimerSpec.Remaining | main.py:25-26 | remaining time is never negative, is zero exactly when the elapsed seconds reach the duration, and otherwise equals duration minus elapsed |
| TimerSpec.TickTimer | main.py:24-29 | sweeping one record changes only remaining and status; a non-running record is unchanged; a running one gets the formula's value and becomes expired exactly when that value is zero, never canceled |
| TimerSpec.Tick | main.py:20-29 | the sweep keeps the same keys, sweeps every record, and leaves no running record with zero or less remaining |
| TimerSpec.Start | main.py:37-51 | start returns Conflict or the new running record; Conflict exactly when the key's record is still running after its own sweep; the table gains at most the started key, a successful start stores the returned record there, and every other key holds its swept record |
| TimerSpec.Get | main.py:55-59 | get returns NotFound exactly when the key is absent, otherwise the key's record swept to now; no key is added |
| TimerSpec.Cancel | main.py:63-65 | cancel keeps the keys and every other record; an existing record gets status canceled with every other field unchanged |
| TimerProperties.TickRecord | main.py:23-29 | after a sweep a formerly running record has remaining max(duration - elapsed, 0) and is expired exactly when that is zero, running exactly when it is positive; other records are unchanged |
| TimerProperties.TickTimerLater | main.py:24-29 | sweeping a record at t1 and then at t2 >= t1 equals one sweep at t2 |
| TimerProperties.TickLater | main.py:20-29 | the whole-table sweep at t1 followed by one at t2 >= t1 equals the sweep at t2, so intermediate requests do not change what a later request sees |
| TimerProperties.TickIdempotent | main.py:20-29 | two sweeps at the same time equal one |
| TimerProperties.TickCountsDown | main.py:24-29 | between sweeps at t1 <= t2 remaining time never grows and an expired record stays expired |
| TimerProperties.StartConflict | main.py:37-40 | start conflicts exactly when the key holds a running record whose elapsed time is still below its duration; on conflict the table is exactly the swept table |
| TimerProperties.StartStores | main.py:41-50 | a successful start stores under the key a running record with the full duration left, started now, with the given id, over whatever was there; every other key holds the swept record |
| TimerProperties.GetReads | main.py:55-59 | get leaves exactly the swept table and returns the key's swept record when the key exists |
| TimerProperties.CancelAbsent | main.py:63-65 | canceling an absent key changes nothing |
| TimerProperties.CancelFreezes | main.py:63-65 | a canceled record keeps the remaining time it had, and later sweeps leave it unchanged |
| TimerProperties.CancelThenStart | main.py:37-50 | after a cancel, a start on the same key always succeeds |
| TimerProperties.StartTwiceConflicts | main.py:37-40 | a second start on a key before the first countdown has run out yields Conflict and keeps the first record |
| TimerProperties.StartThenGet | main.py:24-29 | a timer started at t0 and read by the next request at t1 >= t0 reports max(duration - (t1 - t0), 0) and is expired exactly when t1 - t0 reaches the duration |
| TimerProperties.CanceledBeforeSweep | main.py:41-65 | a started record canceled before any sweep is reported by the next read, at any time, as canceled with the full duration as its remaining time, so a non-positive duration is reported as is, never expired |
| TimerProperties.TickConsistent | main.py:23-29 | the sweep keeps every record filed under its own key, with expired meaning zero left and remaining at most max(duration, 0) |
| TimerProperties.StartConsistent | main.py:37-50 | a start, successful or not, keeps the table invariant |
| TimerProperties.CancelConsistent | main.py:63-65 | a cancel keeps the table invariant |
| RequestStream.RunConsistent | main.py:20-65 | after any stream of routable requests in time order, every record is filed under its own user and case, started no later than the latest time, shows zero if expired and never more than max(duration, 0) |
| RequestStream.RunKeys | main.py:37-65 | over any stream of requests no record is deleted, and the only keys added are those of start requests |
| RequestStream.SweepsCollapse | main.py:20-29 | sweeps at any rising series of times leave the table that one sweep at the last time leaves |
| TimerRegistry.Registry.constructor | main.py:8-9 | the registry starts with an empty table |
| TimerRegistry.Registry.Tick | main.py:20-29 | the in-place loop over all records leaves the table equal to the swept table and keeps the invariant |
| TimerRegistry.Registry.Start | main.py:32-51 | sweeps in place, then returns Conflict or stores and returns the new record, exactly as the start function says |
| TimerRegistry.Registry.Get | main.py:54-59 | sweeps in place, then returns the key's record or NotFound, exactly as the get function says |
| TimerRegistry.Registry.Cancel | main.py:62-65 | sets only the status of an existing record to canceled, without a sweep, and keeps the invariant |

## Left out

- HTTP routing, status codes (201, 404, 409, 204), pydantic validation and serialisation are framework glue. Only the Ok, Conflict and NotFound outcomes are kept.
- `datetime.utcnow()` and `timedelta` arithmetic read the wall clock and give float seconds. They are replaced by an integer `now`, with the truncation of `int(elapsed)` taken as already applied.
- `uuid4()` is a source of randomness, so the timer id is a parameter.
- TimerSpec.Start: the source reads the clock twice, once in the sweep and once later for `startedAt`. The model uses one `now` for both, so the few microseconds between the two reads are not modelled.
- A clock that runs backwards is not modelled: every request with a time requires `now >= clock`.
- The table is a process-wide global in the source. Here it is a field of one `Registry` object, and requests are taken to run one at a time. Concurrent requests are not modelled.
- Timer records are values here. In the source, a returned record is the same mutable object as the stored one. That aliasing is not observable once the record has been serialised into a response, so the model does not capture it.
- The default duration of 420 seconds belongs to the route signature. The model takes the duration as an explicit parameter.
