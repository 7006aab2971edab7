/**
 Liveness over whole runs: which workers the coordinator shows as online, given its sweeps and the
 heartbeats it receives.
 */
module Liveness {
  import opened Common
  import opened Coordinator
  import opened CoordinatorRuns

  /** Every clock reading a handler or sweep stores or compares is taken no earlier than `since`. */
  ghost predicate ReadsFrom(op: Op, since: Time) {
    match op
    case Pair(_, _, _, _, _, seen) => since <= seen
    case Heartbeat(_, _, _, _, at) => since <= at
    case Sweep(clock) => forall id :: since <= clock(id)
    case _ => true
  }

  /** `starts[i]` is when step `i` takes the lock; the clock does not run backwards. */
  ghost predicate Timed(es: seq<Event>, starts: seq<Time>, since: Time)
    decreases |es|
  {
    && |starts| == |es|
    && (es != [] ==> since <= starts[0] && ReadsFrom(es[0].op, starts[0]) && Timed(es[1..], starts[1..], starts[0]))
  }

  function LastSweep(es: seq<Event>, starts: seq<Time>, before: Time): Time
    requires |starts| == |es|
    decreases |es|
  {
    if es == [] then before
    else LastSweep(es[1..], starts[1..], if es[0].op.Sweep? then starts[0] else before)
  }

  ghost predicate OnlineSeenSince(s: System, t: Time) {
    forall id | id in s.store.mem.workers && s.store.mem.workers[id].status == "online" ::
      s.store.mem.workers[id].lastSeen >= t
  }

  lemma {:induction false} OnlineFollowsSweeps(hash: string -> string, s: System, es: seq<Event>, starts: seq<Time>,
                                               last: Time, since: Time)
    requires CrashFree(es) && Timed(es, starts, since) && last <= since
    requires OnlineSeenSince(s, last - SILENCE_LIMIT)
    ensures OnlineSeenSince(Run(hash, s, es), LastSweep(es, starts, last) - SILENCE_LIMIT)
    decreases |es|
  {
    if es != [] {
      assert !es[0].crash;
      var s' := Apply(hash, s, es[0]);
      var last' := if es[0].op.Sweep? then starts[0] else last;
      assert OnlineSeenSince(s', last' - SILENCE_LIMIT);
      OnlineFollowsSweeps(hash, s', es[1..], starts[1..], last', starts[0]);
    }
  }

  /**
   Bounded staleness: whatever the state was when a sweep ran, at any later moment of the same
   process that is within `period` of the latest sweep, every worker shown online was heard from
   less than the silence limit plus `period` ago.
   */
  lemma OnlineMeansRecent(hash: string -> string, s: System, sweep: Event, at: Time, es: seq<Event>, starts: seq<Time>,
                          now: Time, period: Time)
    requires sweep.op.Sweep? && !sweep.crash && ReadsFrom(sweep.op, at)
    requires CrashFree(es) && Timed(es, starts, at)
    requires now <= LastSweep(es, starts, at) + period
    ensures var workers := Run(hash, Apply(hash, s, sweep), es).store.mem.workers;
            forall id | id in workers && workers[id].status == "online" ::
              now - workers[id].lastSeen <= SILENCE_LIMIT + period
  {
    OnlineFollowsSweeps(hash, Apply(hash, s, sweep), es, starts, at, at);
  }

  /** Worker `id` reports with its own token. */
  predicate Reports(op: Op, id: string, tokenHash: string) {
    op.Heartbeat? && op.workerId == id && op.tokenHash == tokenHash
  }

  /** At every sweep of the run, worker `id` was last heard from within the silence limit. */
  predicate HeardOften(es: seq<Event>, id: string, tokenHash: string, last: Time)
    decreases |es|
  {
    es == [] ||
    (var op := es[0].op;
     && (op.Sweep? ==> op.clock(id) - last <= SILENCE_LIMIT)
     && HeardOften(es[1..], id, tokenHash, if Reports(op, id, tokenHash) then op.at else last))
  }

  lemma {:induction false} OnlineWhileHeardOften(hash: string -> string, s: System, es: seq<Event>, id: string,
                                                 tokenHash: string, last: Time)
    requires CrashFree(es) && FreshRun(hash, s, es) && HeardOften(es, id, tokenHash, last)
    requires OnlineAt(s, id, tokenHash, last)
    ensures exists last' :: OnlineAt(Run(hash, s, es), id, tokenHash, last')
    decreases |es|
  {
    if es == [] {
      assert OnlineAt(Run(hash, s, es), id, tokenHash, last);
    } else {
      assert !es[0].crash;
      var last' := if Reports(es[0].op, id, tokenHash) then es[0].op.at else last;
      assert OnlineAt(Apply(hash, s, es[0]), id, tokenHash, last');
      OnlineWhileHeardOften(hash, Apply(hash, s, es[0]), es[1..], id, tokenHash, last');
      var final :| OnlineAt(Run(hash, Apply(hash, s, es[0]), es[1..]), id, tokenHash, final);
      assert OnlineAt(Run(hash, s, es), id, tokenHash, final);
    }
  }

  /** Every clock reading a heartbeat or sweep takes is no later than `until`. */
  ghost predicate ReadsUntil(op: Op, until: Time) {
    match op
    case Heartbeat(_, _, _, _, at) => at <= until
    case Sweep(clock) => forall id :: clock(id) <= until
    case _ => true
  }

  /** Step `i` runs between `ticks[i]` and `ticks[i + 1]`, by a clock that does not run backwards. */
  ghost predicate InOrder(es: seq<Event>, ticks: seq<Time>)
    decreases |es|
  {
    && |ticks| == |es| + 1
    && (es != [] ==>
          && ticks[0] <= ticks[1] && ReadsFrom(es[0].op, ticks[0]) && ReadsUntil(es[0].op, ticks[1])
          && InOrder(es[1..], ticks[1..]))
  }

  /** Worker `id` reports at intervals no longer than the silence limit, from `last` to the `end` of the run. */
  predicate Regular(es: seq<Event>, id: string, tokenHash: string, last: Time, end: Time)
    decreases |es|
  {
    if es == [] then end - last <= SILENCE_LIMIT
    else if Reports(es[0].op, id, tokenHash)
    then es[0].op.at - last <= SILENCE_LIMIT && Regular(es[1..], id, tokenHash, es[0].op.at, end)
    else Regular(es[1..], id, tokenHash, last, end)
  }

  /** The next report, or else the end, is never further away than the silence limit. */
  lemma {:induction false} NextReportIsNear(es: seq<Event>, ticks: seq<Time>, id: string, tokenHash: string, last: Time)
    requires InOrder(es, ticks) && Regular(es, id, tokenHash, last, ticks[|es|])
    ensures ticks[0] - last <= SILENCE_LIMIT
    decreases |es|
  {
    if es != [] && !Reports(es[0].op, id, tokenHash) {
      NextReportIsNear(es[1..], ticks[1..], id, tokenHash, last);
    }
  }

  lemma {:induction false} RegularIsHeardOften(es: seq<Event>, ticks: seq<Time>, id: string, tokenHash: string,
                                               last: Time)
    requires InOrder(es, ticks) && Regular(es, id, tokenHash, last, ticks[|es|])
    ensures HeardOften(es, id, tokenHash, last)
    decreases |es|
  {
    if es != [] {
      var last' := if Reports(es[0].op, id, tokenHash) then es[0].op.at else last;
      RegularIsHeardOften(es[1..], ticks[1..], id, tokenHash, last');
      if es[0].op.Sweep? {
        NextReportIsNear(es[1..], ticks[1..], id, tokenHash, last);
        assert es[0].op.clock(id) <= ticks[1];
      }
    }
  }

  /**
   A worker whose heartbeats come at most 15 seconds apart is never taken offline, whenever the sweeps
   run and whatever else happens, and stays able to report.
   */
  lemma ReportingWorkerStaysOnline(hash: string -> string, s: System, es: seq<Event>, ticks: seq<Time>, id: string,
                                   tokenHash: string, last: Time)
    requires CrashFree(es) && FreshRun(hash, s, es) && InOrder(es, ticks)
    requires OnlineAt(s, id, tokenHash, last) && Regular(es, id, tokenHash, last, ticks[|es|])
    ensures exists last' :: OnlineAt(Run(hash, s, es), id, tokenHash, last')
  {
    RegularIsHeardOften(es, ticks, id, tokenHash, last);
    OnlineWhileHeardOften(hash, s, es, id, tokenHash, last);
  }
}
