/**
 The authentication rate limiter. The check that admits a request to the credential comparison and
 the update that follows it are separate critical sections, so other requests, cleanup ticks and
 whole-table wipes may come in between.
 */
module RateLimiter {
  import opened Common

  const MAX_FAILURES: nat := 10
  const LOCKOUT := MINUTE
  const CLEANUP_SIZE: nat := 10000
  const MAX_SIZE: nat := 20000

  datatype State = State(rates: map<string, nat>, reset: map<string, Time>)

  const EMPTY := State(map[], map[])

  function Count(s: State, ip: string): nat {
    if ip in s.rates then s.rates[ip] else 0
  }

  predicate LockoutOver(s: State, ip: string, now: Time) {
    ip in s.reset && now > s.reset[ip]
  }

  function Forgotten(s: State, ips: set<string>): State {
    State(s.rates - ips, s.reset - ips)
  }

  /** The table a request sees: its own lockout has been dropped if it is over. */
  function Refreshed(s: State, ip: string, now: Time): State {
    if LockoutOver(s, ip, now) then Forgotten(s, {ip}) else s
  }

  predicate Admits(s: State, ip: string, now: Time) {
    Count(Refreshed(s, ip, now), ip) <= MAX_FAILURES
  }

  /** First critical section: a refusal starts the lockout afresh. */
  function Examined(s: State, ip: string, now: Time): State {
    var r := Refreshed(s, ip, now);
    if Admits(s, ip, now) then r else r.(reset := r.reset[ip := now + LOCKOUT])
  }

  function Bumped(s: State, ip: string): map<string, nat> {
    s.rates[ip := Count(s, ip) + 1]
  }

  /** Second critical section after bad credentials. */
  function Penalized(s: State, ip: string): State {
    if |Bumped(s, ip)| > MAX_SIZE then EMPTY else s.(rates := Bumped(s, ip))
  }

  function Over(s: State, now: Time): set<string> {
    set ip | ip in s.reset && LockoutOver(s, ip, now)
  }

  /** One tick of the background cleanup. */
  function Cleaned(s: State, now: Time): State {
    if |s.rates| > CLEANUP_SIZE then EMPTY else Forgotten(s, Over(s, now))
  }

  class Limiter {
    var rates: map<string, nat>
    var reset: map<string, Time>

    ghost function Abstract(): State
      reads this
    {
      State(rates, reset)
    }

    constructor ()
      ensures Abstract() == EMPTY
    {
      rates, reset := map[], map[];
    }

    method Admit(ip: string, now: Time) returns (admitted: bool)
      modifies this
      ensures Abstract() == Examined(old(Abstract()), ip, now)
      ensures admitted == Admits(old(Abstract()), ip, now)
    {
      if ip in reset && now > reset[ip] {
        rates := rates - {ip};
        reset := reset - {ip};
      }
      if ip in rates && rates[ip] > MAX_FAILURES {
        reset := reset[ip := now + LOCKOUT];
        return false;
      }
      return true;
    }

    method Fail(ip: string)
      modifies this
      ensures Abstract() == Penalized(old(Abstract()), ip)
    {
      rates := rates[ip := if ip in rates then rates[ip] + 1 else 1];
      if |rates| > MAX_SIZE {
        rates, reset := map[], map[];
      }
    }

    method Succeed(ip: string)
      modifies this
      ensures Abstract() == Forgotten(old(Abstract()), {ip})
    {
      rates := rates - {ip};
      reset := reset - {ip};
    }

    method CleanupTick(now: Time)
      modifies this
      ensures Abstract() == Cleaned(old(Abstract()), now)
    {
      if |rates| > CLEANUP_SIZE {
        rates, reset := map[], map[];
        return;
      }
      ghost var before, gone := Abstract(), {};
      var rest := reset.Keys;
      while rest != {}
        invariant rest <= before.reset.Keys && gone !! rest
        invariant forall ip | ip in before.reset && ip !in rest :: ip in gone <==> LockoutOver(before, ip, now)
        invariant gone <= before.reset.Keys
        invariant rates == before.rates - gone && reset == before.reset - gone
      {
        var ip :| ip in rest;
        if now > reset[ip] {
          ForgetOneMore(before.rates, gone, ip);
          ForgetOneMore(before.reset, gone, ip);
          rates := rates - {ip};
          reset := reset - {ip};
          gone := gone + {ip};
        }
        rest := rest - {ip};
      }
      assert gone == Over(before, now);
    }
  }

  lemma ForgetOneMore<V>(m: map<string, V>, gone: set<string>, ip: string)
    ensures (m - gone) - {ip} == m - (gone + {ip})
  {
  }

  // ----- Concurrent requests -----

  /** The limiter and, per address, how many admitted requests have not finished. */
  datatype System = System(limiter: State, inFlight: map<string, nat>)

  datatype Event =
    | Request(ip: string, at: Time)
    | Reject(ip: string)
    | Accept(ip: string)
    | Tick(at: Time)

  function InFlight(s: System, ip: string): nat {
    if ip in s.inFlight then s.inFlight[ip] else 0
  }

  function Start(): System {
    System(EMPTY, map[])
  }

  /** Only a request in flight can be rejected or accepted. */
  function Apply(s: System, e: Event): System {
    match e
    case Request(ip, at) =>
      var s' := s.(limiter := Examined(s.limiter, ip, at));
      if Admits(s.limiter, ip, at) then s'.(inFlight := s.inFlight[ip := InFlight(s, ip) + 1]) else s'
    case Reject(ip) =>
      if InFlight(s, ip) == 0 then s
      else System(Penalized(s.limiter, ip), s.inFlight[ip := InFlight(s, ip) - 1])
    case Accept(ip) =>
      if InFlight(s, ip) == 0 then s
      else System(Forgotten(s.limiter, {ip}), s.inFlight[ip := InFlight(s, ip) - 1])
    case Tick(at) => s.(limiter := Cleaned(s.limiter, at))
  }

  function Run(s: System, es: seq<Event>): System
    decreases |es|
  {
    if es == [] then s else Run(Apply(s, es[0]), es[1..])
  }

  lemma {:induction false} RunAppend(s: System, a: seq<Event>, b: seq<Event>)
    ensures Run(s, a + b) == Run(Run(s, a), b)
    decreases |a|
  {
    if a == [] {
      assert a + b == b;
    } else {
      assert (a + b)[1..] == a[1..] + b;
      RunAppend(Apply(s, a[0]), a[1..], b);
    }
  }

  // ----- What each step promises -----

  /** Both entries of an address, if any. */
  function Entries(s: State, ip: string): (Option<nat>, Option<Time>) {
    (if ip in s.rates then Some(s.rates[ip]) else None, if ip in s.reset then Some(s.reset[ip]) else None)
  }

  /**
   A request is refused exactly if its address has more than ten failures and no lockout that is over.
   A refusal locks the address out for a minute from then on; a lockout that is over is dropped together
   with the failures. No other address notices.
   */
  lemma RequestOutcome(s: System, ip: string, at: Time, other: string)
    ensures var s', (count, until) := Apply(s, Request(ip, at)), Entries(s.limiter, ip);
            var over := until.Some? && until.value < at;
            var refused := count.Some? && count.value >= 11 && !over;
            && InFlight(s', ip) == InFlight(s, ip) + (if refused then 0 else 1)
            && Entries(s'.limiter, ip) ==
               (if refused then (count, Some(at + 60 * SECOND)) else if over then (None, None) else (count, until))
            && (other != ip ==> Entries(s'.limiter, other) == Entries(s.limiter, other))
            && (other != ip ==> InFlight(s', other) == InFlight(s, other))
  {
  }

  /** A rejected request adds one failure to its address, unless the table grows past 20000 and is wiped. */
  lemma RejectOutcome(s: System, ip: string, other: string)
    requires InFlight(s, ip) > 0
    ensures var s' := Apply(s, Reject(ip));
            && InFlight(s', ip) == InFlight(s, ip) - 1
            && if |s.limiter.rates.Keys + {ip}| > 20000 then s'.limiter.rates == map[] && s'.limiter.reset == map[]
               else
                 && Count(s'.limiter, ip) == Count(s.limiter, ip) + 1
                 && Entries(s'.limiter, ip).1 == Entries(s.limiter, ip).1
                 && (other != ip ==> Entries(s'.limiter, other) == Entries(s.limiter, other))
  {
    assert Bumped(s.limiter, ip).Keys == s.limiter.rates.Keys + {ip};
    assert |Bumped(s.limiter, ip)| == |Bumped(s.limiter, ip).Keys|;
  }

  /** An accepted request clears both entries of its address and no other's. */
  lemma AcceptOutcome(s: System, ip: string, other: string)
    requires InFlight(s, ip) > 0
    ensures var s' := Apply(s, Accept(ip));
            && InFlight(s', ip) == InFlight(s, ip) - 1
            && Count(s'.limiter, ip) == 0 && Entries(s'.limiter, ip) == (None, None)
            && (other != ip ==> Entries(s'.limiter, other) == Entries(s.limiter, other))
  {
  }

  /** A cleanup leaves nothing of a table of more than 10000, and else the addresses whose lockout is not over. */
  lemma TickOutcome(s: System, at: Time, ip: string)
    ensures var s', (count, until) := Apply(s, Tick(at)), Entries(s.limiter, ip);
            && s'.inFlight == s.inFlight
            && Entries(s'.limiter, ip) ==
               if |s.limiter.rates| > 10000 || (until.Some? && until.value < at) then (None, None) else (count, until)
  {
  }

  /** Requests of one address, each of which fails before the next comes. */
  function Failing(ip: string, times: seq<Time>): seq<Event> {
    if times == [] then [] else [Request(ip, times[0]), Reject(ip)] + Failing(ip, times[1..])
  }

  lemma {:induction false} FailuresCount(s: System, ip: string, times: seq<Time>)
    requires Entries(s.limiter, ip).1.None? && InFlight(s, ip) == 0
    requires Count(s.limiter, ip) + |times| <= 11 && |s.limiter.rates.Keys + {ip}| <= 20000
    ensures var s' := Run(s, Failing(ip, times));
            Entries(s'.limiter, ip).1.None? && Count(s'.limiter, ip) == Count(s.limiter, ip) + |times|
    decreases |times|
  {
    if times != [] {
      var s1 := Apply(s, Request(ip, times[0]));
      var s2 := Apply(s1, Reject(ip));
      assert s1.limiter == s.limiter && InFlight(s1, ip) == 1;
      RejectOutcome(s1, ip, ip);
      assert s2.limiter.rates.Keys + {ip} == s.limiter.rates.Keys + {ip};
      FailuresCount(s2, ip, times[1..]);
      RunOneFailure(s, ip, times);
    }
  }

  lemma RunOneFailure(s: System, ip: string, times: seq<Time>)
    requires times != []
    ensures Run(s, Failing(ip, times)) ==
            Run(Apply(Apply(s, Request(ip, times[0])), Reject(ip)), Failing(ip, times[1..]))
  {
    var es := Failing(ip, times);
    assert es[1..] == [Reject(ip)] + Failing(ip, times[1..]) && es[1..][1..] == Failing(ip, times[1..]);
  }

  /**
   A success starts the count afresh: after an accepted request with nothing else in flight, ten failures
   in a row are each followed by an admitted request, and the eleventh by a refusal, at any time.
   */
  lemma SuccessStartsAfresh(s: System, ip: string, times: seq<Time>, now: Time)
    requires InFlight(s, ip) == 1 && |times| <= 11 && |s.limiter.rates.Keys + {ip}| <= 20000
    ensures Admits(Run(Apply(s, Accept(ip)), Failing(ip, times)).limiter, ip, now) <==> |times| <= 10
  {
    var s' := Apply(s, Accept(ip));
    AcceptOutcome(s, ip, ip);
    SubsetSize(s'.limiter.rates.Keys + {ip}, s.limiter.rates.Keys + {ip});
    FailuresCount(s', ip, times);
  }

  // ----- The tables stay small and consistent -----

  /** An address is locked out only while it has too many failures, and the tables are bounded. */
  ghost predicate Inv(s: State) {
    && (forall ip | ip in s.reset :: ip in s.rates && s.rates[ip] > MAX_FAILURES)
    && |s.rates| <= MAX_SIZE
    && |s.reset| <= |s.rates|
  }

  lemma ForgetKeepsInv(s: State, ips: set<string>)
    requires Inv(s)
    ensures Inv(Forgotten(s, ips))
  {
    SubsetSize((s.rates - ips).Keys, s.rates.Keys);
    SubsetSize((s.reset - ips).Keys, (s.rates - ips).Keys);
  }

  lemma ExamineKeepsInv(s: State, ip: string, now: Time)
    requires Inv(s)
    ensures Inv(Examined(s, ip, now))
  {
    ForgetKeepsInv(s, {ip});
    SubsetSize(Examined(s, ip, now).reset.Keys, Examined(s, ip, now).rates.Keys);
  }

  lemma PenaltyKeepsInv(s: State, ip: string)
    requires Inv(s)
    ensures Inv(Penalized(s, ip))
  {
    SubsetSize(Penalized(s, ip).reset.Keys, Penalized(s, ip).rates.Keys);
  }

  lemma ApplyKeepsInv(s: System, e: Event)
    requires Inv(s.limiter)
    ensures Inv(Apply(s, e).limiter)
  {
    match e
    case Request(ip, at) => ExamineKeepsInv(s.limiter, ip, at);
    case Reject(ip) => PenaltyKeepsInv(s.limiter, ip);
    case Accept(ip) => ForgetKeepsInv(s.limiter, {ip});
    case Tick(at) => ForgetKeepsInv(s.limiter, Over(s.limiter, at));
  }

  lemma {:induction false} RunKeepsInv(s: System, es: seq<Event>)
    requires Inv(s.limiter)
    ensures Inv(Run(s, es).limiter)
    decreases |es|
  {
    if es != [] {
      ApplyKeepsInv(s, es[0]);
      RunKeepsInv(Apply(s, es[0]), es[1..]);
    }
  }

  /** In every reachable state, under any interleaving. */
  lemma TablesStayBounded(es: seq<Event>)
    ensures var s := Run(Start(), es).limiter;
            && (forall ip | ip in s.reset :: ip in s.rates && s.rates[ip] > MAX_FAILURES)
            && |s.rates| <= MAX_SIZE && |s.reset| <= MAX_SIZE
  {
    RunKeepsInv(Start(), es);
  }

  // ----- How far concurrency can stretch the limit -----

  /** Throughout the run at most `n` requests from `ip` are admitted at once. */
  predicate AtMostInFlight(s: System, es: seq<Event>, ip: string, n: nat)
    decreases |es|
  {
    InFlight(s, ip) <= n && (es != [] ==> AtMostInFlight(Apply(s, es[0]), es[1..], ip, n))
  }

  lemma StepKeepsBudget(s: System, e: Event, ip: string, n: nat)
    requires Count(s.limiter, ip) + InFlight(s, ip) <= MAX_FAILURES + n
    requires InFlight(Apply(s, e), ip) <= n
    ensures Count(Apply(s, e).limiter, ip) + InFlight(Apply(s, e), ip) <= MAX_FAILURES + n
  {
  }

  /** Failures plus admitted requests never exceed the limit by more than the concurrency. */
  lemma {:induction false} FailureBudget(s: System, es: seq<Event>, ip: string, n: nat)
    requires Count(s.limiter, ip) + InFlight(s, ip) <= MAX_FAILURES + n
    requires AtMostInFlight(s, es, ip, n)
    ensures Count(Run(s, es).limiter, ip) + InFlight(Run(s, es), ip) <= MAX_FAILURES + n
    decreases |es|
  {
    if es != [] {
      var s' := Apply(s, es[0]);
      assert AtMostInFlight(s', es[1..], ip, n);
      StepKeepsBudget(s, es[0], ip, n);
      FailureBudget(s', es[1..], ip, n);
    }
  }

  /** From an empty table the failure count stays within the limit plus the concurrency: 11 if serial. */
  lemma FailuresNeverExceed(es: seq<Event>, ip: string, n: nat)
    requires AtMostInFlight(Start(), es, ip, n)
    ensures Count(Run(Start(), es).limiter, ip) <= MAX_FAILURES + n
  {
    FailureBudget(Start(), es, ip, n);
  }

  function Repeat(e: Event, n: nat): seq<Event> {
    if n == 0 then [] else [e] + Repeat(e, n - 1)
  }

  lemma {:induction false} ManyRequests(s: System, ip: string, now: Time, n: nat)
    requires ip !in s.limiter.reset && Count(s.limiter, ip) <= MAX_FAILURES
    ensures Run(s, Repeat(Request(ip, now), n)).limiter == s.limiter
    ensures InFlight(Run(s, Repeat(Request(ip, now), n)), ip) == InFlight(s, ip) + n
    decreases n
  {
    if n > 0 {
      var es := Repeat(Request(ip, now), n);
      assert es[1..] == Repeat(Request(ip, now), n - 1);
      ManyRequests(Apply(s, es[0]), ip, now, n - 1);
    }
  }

  lemma {:induction false} ManyRejects(s: System, ip: string, n: nat)
    requires InFlight(s, ip) >= n && s.limiter.rates.Keys <= {ip} && ip !in s.limiter.reset
    ensures var s' := Run(s, Repeat(Reject(ip), n));
            && Count(s'.limiter, ip) == Count(s.limiter, ip) + n
            && InFlight(s', ip) == InFlight(s, ip) - n
            && s'.limiter.rates.Keys <= {ip} && ip !in s'.limiter.reset
    decreases n
  {
    if n > 0 {
      var es := Repeat(Reject(ip), n);
      assert es[1..] == Repeat(Reject(ip), n - 1);
      SubsetSize(Bumped(s.limiter, ip).Keys, {ip});
      ManyRejects(Apply(s, es[0]), ip, n - 1);
    }
  }

  lemma {:induction false} InFlightSum(s: System, e: Event, n: nat, ip: string, bound: nat)
    requires (e == Reject(ip) && InFlight(s, ip) <= bound) || (e.Request? && e.ip == ip && InFlight(s, ip) + n <= bound)
    ensures AtMostInFlight(s, Repeat(e, n), ip, bound)
    decreases n
  {
    if n > 0 {
      assert Repeat(e, n)[1..] == Repeat(e, n - 1);
      InFlightSum(Apply(s, e), e, n - 1, ip, bound);
    }
  }

  lemma {:induction false} InFlightAppend(s: System, a: seq<Event>, b: seq<Event>, ip: string, n: nat)
    requires AtMostInFlight(s, a, ip, n) && AtMostInFlight(Run(s, a), b, ip, n)
    ensures AtMostInFlight(s, a + b, ip, n)
    decreases |a|
  {
    if a == [] {
      assert a + b == b;
    } else {
      assert (a + b)[1..] == a[1..] + b;
      InFlightAppend(Apply(s, a[0]), a[1..], b, ip, n);
    }
  }

  /** A round of `n` concurrent requests that all fail. */
  lemma OneRound(s: System, ip: string, now: Time, n: nat, bound: nat)
    requires s.limiter.rates.Keys <= {ip} && ip !in s.limiter.reset
    requires Count(s.limiter, ip) <= MAX_FAILURES && InFlight(s, ip) == 0 && n <= bound
    ensures var round := Repeat(Request(ip, now), n) + Repeat(Reject(ip), n);
            var s' := Run(s, round);
            && AtMostInFlight(s, round, ip, bound)
            && Count(s'.limiter, ip) == Count(s.limiter, ip) + n && InFlight(s', ip) == 0
            && s'.limiter.rates.Keys <= {ip} && ip !in s'.limiter.reset
  {
    var a, b := Repeat(Request(ip, now), n), Repeat(Reject(ip), n);
    RunAppend(s, a, b);
    ManyRequests(s, ip, now, n);
    ManyRejects(Run(s, a), ip, n);
    InFlightSum(s, Request(ip, now), n, ip, bound);
    InFlightSum(Run(s, a), Reject(ip), n, ip, bound);
    InFlightAppend(s, a, b, ip, bound);
  }

  /** The bound above is sharp: with `n` requests at once the failure count does reach it. */
  lemma BudgetIsReached(ip: string, n: nat)
    requires n >= 1
    ensures exists es :: AtMostInFlight(Start(), es, ip, n) && Count(Run(Start(), es).limiter, ip) == MAX_FAILURES + n
  {
    var first := Repeat(Request(ip, 0), 1) + Repeat(Reject(ip), 1);
    var es, s := [], Start();
    for k := 0 to MAX_FAILURES
      invariant s == Run(Start(), es) && AtMostInFlight(Start(), es, ip, n)
      invariant Count(s.limiter, ip) == k && InFlight(s, ip) == 0
      invariant s.limiter.rates.Keys <= {ip} && ip !in s.limiter.reset
    {
      OneRound(s, ip, 0, 1, n);
      RunAppend(Start(), es, first);
      InFlightAppend(Start(), es, first, ip, n);
      es, s := es + first, Run(s, first);
    }
    OneRound(s, ip, 0, n, n);
    var last := Repeat(Request(ip, 0), n) + Repeat(Reject(ip), n);
    RunAppend(Start(), es, last);
    InFlightAppend(Start(), es, last, ip, n);
    assert AtMostInFlight(Start(), es + last, ip, n) && Count(Run(Start(), es + last).limiter, ip) == MAX_FAILURES + n;
  }

  // ----- The sliding lockout -----

  /** `ip` was refused at time `since` and has no request in flight. */
  predicate LockedOut(s: System, ip: string, since: Time) {
    && Count(s.limiter, ip) > MAX_FAILURES
    && ip in s.limiter.reset && s.limiter.reset[ip] == since + LOCKOUT
    && InFlight(s, ip) == 0
  }

  predicate Wipes(s: System, e: Event) {
    || (e.Tick? && |s.limiter.rates| > CLEANUP_SIZE)
    || (e.Reject? && InFlight(s, e.ip) > 0 && |Bumped(s.limiter, e.ip)| > MAX_SIZE)
  }

  predicate NoWipe(s: System, es: seq<Event>)
    decreases |es|
  {
    es == [] || (!Wipes(s, es[0]) && NoWipe(Apply(s, es[0]), es[1..]))
  }

  /** What goes on between two requests of `ip`: anything but requests of `ip`, up to time `until`. */
  predicate Between(es: seq<Event>, ip: string, until: Time) {
    forall e | e in es :: (e.Request? ==> e.ip != ip) && (e.Request? || e.Tick? ==> e.at <= until)
  }

  lemma RefusalLocksOut(s: System, ip: string, now: Time)
    requires !Admits(s.limiter, ip, now) && InFlight(s, ip) == 0
    ensures LockedOut(Apply(s, Request(ip, now)), ip, now)
  {
  }

  lemma {:induction false} LockoutLasts(s: System, es: seq<Event>, ip: string, since: Time, now: Time)
    requires LockedOut(s, ip, since) && Between(es, ip, now) && NoWipe(s, es) && now <= since + LOCKOUT
    ensures LockedOut(Run(s, es), ip, since)
    decreases |es|
  {
    if es != [] {
      assert es[0] in es;
      assert LockedOut(Apply(s, es[0]), ip, since);
      LockoutLasts(Apply(s, es[0]), es[1..], ip, since, now);
    }
  }

  /** A request of one address, with whatever happened since its previous one. */
  datatype Retry = Retry(meanwhile: seq<Event>, at: Time)

  /** Each retry comes at most a minute after the one before it, and no table was wiped. */
  predicate Impatient(s: System, ip: string, since: Time, retries: seq<Retry>)
    decreases |retries|
  {
    retries == [] ||
    var r := retries[0];
    && r.at <= since + LOCKOUT
    && Between(r.meanwhile, ip, r.at) && NoWipe(s, r.meanwhile)
    && Impatient(Apply(Run(s, r.meanwhile), Request(ip, r.at)), ip, r.at, retries[1..])
  }

  predicate AllRefused(s: System, ip: string, retries: seq<Retry>)
    decreases |retries|
  {
    retries == [] ||
    var s' := Run(s, retries[0].meanwhile);
    && !Admits(s'.limiter, ip, retries[0].at)
    && AllRefused(Apply(s', Request(ip, retries[0].at)), ip, retries[1..])
  }

  /** Retrying within a minute never gets through, however long it goes on and whatever cleanups run. */
  lemma {:induction false} LockoutSlides(s: System, ip: string, since: Time, retries: seq<Retry>)
    requires LockedOut(s, ip, since) && Impatient(s, ip, since, retries)
    ensures AllRefused(s, ip, retries)
    decreases |retries|
  {
    if retries != [] {
      var r := retries[0];
      LockoutLasts(s, r.meanwhile, ip, since, r.at);
      var s' := Run(s, r.meanwhile);
      RefusalLocksOut(s', ip, r.at);
      LockoutSlides(Apply(s', Request(ip, r.at)), ip, r.at, retries[1..]);
    }
  }

  /** What is left of a lockout while no request of `ip` runs: the same entry, or nothing at all. */
  predicate LockedOutOrClear(s: System, ip: string, since: Time) {
    || LockedOut(s, ip, since)
    || (Count(s.limiter, ip) == 0 && ip !in s.limiter.reset && InFlight(s, ip) == 0)
  }

  lemma {:induction false} LockoutOnlyClears(s: System, es: seq<Event>, ip: string, since: Time, now: Time)
    requires LockedOutOrClear(s, ip, since) && Between(es, ip, now)
    ensures LockedOutOrClear(Run(s, es), ip, since)
    decreases |es|
  {
    if es != [] {
      assert es[0] in es;
      assert LockedOutOrClear(Apply(s, es[0]), ip, since);
      LockoutOnlyClears(Apply(s, es[0]), es[1..], ip, since, now);
    }
  }

  /**
   The next request after a refusal is admitted to the credential check exactly if more than a
   minute has passed, wipes aside; a wipe can only let it in earlier.
   */
  lemma NextRequestAfterRefusal(s: System, es: seq<Event>, ip: string, since: Time, now: Time)
    requires LockedOut(s, ip, since) && Between(es, ip, now)
    ensures now > since + LOCKOUT ==> Admits(Run(s, es).limiter, ip, now)
    ensures NoWipe(s, es) ==> (Admits(Run(s, es).limiter, ip, now) <==> now > since + LOCKOUT)
  {
    LockoutOnlyClears(s, es, ip, since, now);
    if now <= since + LOCKOUT && NoWipe(s, es) {
      LockoutLasts(s, es, ip, since, now);
    }
  }
}
