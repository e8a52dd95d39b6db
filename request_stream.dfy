/** The registry over its whole life: a stream of start, get and cancel
    requests served one after another, each against the table the previous
    one left. */
module RequestStream {
  import opened TimerSpec
  import TimerProperties

  datatype Request =
    | StartRequest(userId: string, caseNumber: int, durationSeconds: int, now: int, timerId: string)
    | GetRequest(userId: string, caseNumber: int, now: int)
    | CancelRequest(userId: string, caseNumber: int)

  /** The routes only let case numbers 1 to 4 through. */
  predicate Routable(r: Request) {
    ValidCase(r.caseNumber)
  }

  /** The time a request reads; a cancel reads no clock and leaves the
      latest time as it was. */
  function TimeOf(r: Request, clock: int): int {
    if r.CancelRequest? then clock else r.now
  }

  /** Every request is routable and no request reads a time earlier than
      the one before it. */
  predicate InOrder(clock: int, rs: seq<Request>)
    decreases |rs|
  {
    rs == [] || (Routable(rs[0]) && clock <= TimeOf(rs[0], clock) && InOrder(TimeOf(rs[0], clock), rs[1..]))
  }

  /** The table after one request. */
  function Serve(m: Table, r: Request): Table
    requires Routable(r)
  {
    match r
    case StartRequest(u, c, d, now, id) => Start(m, u, c, d, now, id).1
    case GetRequest(u, c, now) => Get(m, u, c, now).1
    case CancelRequest(u, c) => Cancel(m, u, c)
  }

  /** The table after a stream of requests, and the latest time seen. */
  function Run(m: Table, clock: int, rs: seq<Request>): (Table, int)
    requires InOrder(clock, rs)
    decreases |rs|
  {
    if rs == [] then (m, clock)
    else Run(Serve(m, rs[0]), TimeOf(rs[0], clock), rs[1..])
  }

  /** The keys a stream of requests can add: those it starts. */
  function StartedKeys(rs: seq<Request>): set<Key>
    decreases |rs|
  {
    if rs == [] then {}
    else (if rs[0].StartRequest? then {(rs[0].userId, rs[0].caseNumber)} else {}) + StartedKeys(rs[1..])
  }

  /** Whatever requests arrive, the table stays consistent: every record
      is filed under its own key, started no later than the latest time,
      shows nothing left if expired, and never more than max(duration, 0). */
  lemma {:induction false} RunConsistent(m: Table, clock: int, rs: seq<Request>)
    requires Consistent(m, clock) && InOrder(clock, rs)
    ensures Consistent(Run(m, clock, rs).0, Run(m, clock, rs).1)
    ensures clock <= Run(m, clock, rs).1
    decreases |rs|
  {
    if rs != [] {
      var r := rs[0];
      match r {
        case StartRequest(u, c, d, now, id) =>
          TimerProperties.StartConsistent(m, clock, u, c, d, now, id);
        case GetRequest(u, c, now) =>
          TimerProperties.TickConsistent(m, clock, now);
        case CancelRequest(u, c) =>
          TimerProperties.CancelConsistent(m, clock, u, c);
      }
      RunConsistent(Serve(m, r), TimeOf(r, clock), rs[1..]);
    }
  }

  /** Records are never deleted, and only a start adds a key. */
  lemma {:induction false} RunKeys(m: Table, clock: int, rs: seq<Request>)
    requires InOrder(clock, rs)
    ensures m.Keys <= Run(m, clock, rs).0.Keys <= m.Keys + StartedKeys(rs)
    decreases |rs|
  {
    if rs != [] {
      RunKeys(Serve(m, rs[0]), TimeOf(rs[0], clock), rs[1..]);
    }
  }

  /** Sweeping at each of a rising series of times and then at `last`
      equals one sweep at `last`: how many requests swept in between never
      changes what a later request sees. */
  function SweepAll(m: Table, times: seq<int>): Table
    decreases |times|
  {
    if times == [] then m else SweepAll(Tick(m, times[0]), times[1..])
  }

  predicate Rising(times: seq<int>) {
    forall i, j :: 0 <= i < j < |times| ==> times[i] <= times[j]
  }

  lemma {:induction false} SweepsCollapse(m: Table, times: seq<int>)
    requires times != [] && Rising(times)
    ensures SweepAll(m, times) == Tick(m, times[|times| - 1])
    decreases |times|
  {
    if |times| > 1 {
      SweepsCollapse(Tick(m, times[0]), times[1..]);
      TimerProperties.TickLater(m, times[0], times[|times| - 1]);
    }
  }
}
