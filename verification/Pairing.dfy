/**
 Pairing codes over whole runs: how many attempts one generated code stands, when a code is spent,
 and what failed saves and restarts do to both.
 */
module Pairing {
  import opened Common
  import opened AtomicFiles
  import opened Decimals
  import opened Coordinator
  import opened CoordinatorRuns

  /** A code spells its draw in decimal, so every value below a million has its own code. */
  lemma CodeSpellsTheDraw(draw: nat)
    ensures |SixDigits(draw)| == 6 && DecimalValue(SixDigits(draw)) == draw % 1000000
  {
    assert PowerOfTen(3) == 1000 && PowerOfTen(6) == 1000 * PowerOfTen(3);
    PaddedValue(draw % 1000000, 6);
  }

  // ----- The budget of one code -----

  /** Every restart finds the configuration that memory held. */
  ghost predicate NoConfigLost(hash: string -> string, s: System, es: seq<Event>)
    decreases |es|
  {
    es == [] ||
    (var s' := Apply(hash, s, es[0]);
     && s'.store.mem.cfg == EffectOf(hash, s.store.mem, es[0].op).mem.cfg
     && NoConfigLost(hash, s', es[1..]))
  }

  lemma {:induction false} CrashFreeLosesNothing(hash: string -> string, s: System, es: seq<Event>)
    requires CrashFree(es)
    ensures NoConfigLost(hash, s, es)
    decreases |es|
  {
    if es != [] {
      assert !es[0].crash;
      CrashFreeLosesNothing(hash, Apply(hash, s, es[0]), es[1..]);
    }
  }

  /** The operations that change the configuration; each of them saves it. */
  ghost predicate ConfigSaved(es: seq<Event>) {
    forall e | e in es && (e.op.Pair? || e.op.GenerateCode?) :: e.steps >= WRITE_STEPS
  }

  /** Restarts lose nothing if memory starts out saved and every pairing request gets past the first rename. */
  lemma {:induction false} SavedConfigNotLost(hash: string -> string, s: System, es: seq<Event>)
    requires Recovered(s.store.disk).cfg == s.store.mem.cfg && ConfigSaved(es)
    ensures NoConfigLost(hash, s, es)
    decreases |es|
  {
    if es != [] {
      assert es[0] in es;
      var s' := Apply(hash, s, es[0]);
      assert Recovered(s'.store.disk).cfg == s'.store.mem.cfg == EffectOf(hash, s.store.mem, es[0].op).mem.cfg;
      SavedConfigNotLost(hash, s', es[1..]);
    }
  }

  predicate Pairs(s: System, op: Op) {
    op.Pair? && PairOutcome(s.store.mem.cfg, op.node, op.code, WorkerId(op.suffix), op.now).Paired?
  }

  predicate PairRefused(s: System, op: Op) {
    op.Pair? && PairOutcome(s.store.mem.cfg, op.node, op.code, WorkerId(op.suffix), op.now).Refused?
  }

  /** Evaluated attempts since the last code was generated. */
  datatype Tally = Tally(refused: nat, paired: nat)

  function Tallied(s: System, op: Op, t: Tally): Tally {
    if op.GenerateCode? then Tally(0, 0)
    else if Pairs(s, op) then t.(paired := t.paired + 1)
    else if PairRefused(s, op) then t.(refused := t.refused + 1)
    else t
  }

  ghost function TallyAfter(hash: string -> string, s: System, es: seq<Event>, t: Tally): Tally
    decreases |es|
  {
    if es == [] then t else TallyAfter(hash, Apply(hash, s, es[0]), es[1..], Tallied(s, es[0].op, t))
  }

  /** Until the code is used its failure count is exact; once used, a second budget starts on no code. */
  predicate WithinBudget(cfg: Config, t: Tally) {
    && cfg.pairingFailures <= MAX_PAIRING_FAILURES + 1
    && (t.paired == 0 ==> t.refused == cfg.pairingFailures)
    && (t.paired != 0 ==>
          t.paired == 1 && cfg.pairingCode == "" && t.refused <= MAX_PAIRING_FAILURES + cfg.pairingFailures)
  }

  /**
   Since a code was generated, over any run whose restarts lose no configuration: at most 6 attempts
   are evaluated and refused while it is unused, at most 11 in all, at most one attempt succeeds, and
   after the sixth refusal in a row no attempt is evaluated at all, the right code included.
   */
  lemma {:induction false} PairingBudget(hash: string -> string, s: System, es: seq<Event>, t: Tally, op: Op)
    requires WithinBudget(s.store.mem.cfg, t) && NoConfigLost(hash, s, es)
    ensures var later, t' := Run(hash, s, es), TallyAfter(hash, s, es, t);
            && WithinBudget(later.store.mem.cfg, t')
            && t'.paired <= 1 && t'.refused <= 11 && (t'.paired == 0 ==> t'.refused <= 6)
            && (t'.paired == 0 && t'.refused == 6 ==> !Pairs(later, op) && !PairRefused(later, op))
    decreases |es|
  {
    if es != [] {
      var s' := Apply(hash, s, es[0]);
      assert WithinBudget(s'.store.mem.cfg, Tallied(s, es[0].op, t));
      PairingBudget(hash, s', es[1..], Tallied(s, es[0].op, t), op);
    }
  }

  /** The budget starts whenever a code is generated, from any state, unless the code is lost at once. */
  lemma GenerationStartsBudget(hash: string -> string, s: System, e: Event, t: Tally)
    requires e.op.GenerateCode? && (!e.crash || e.steps >= WRITE_STEPS)
    ensures WithinBudget(Apply(hash, s, e).store.mem.cfg, Tallied(s, e.op, t))
    ensures Apply(hash, s, e).store.mem.cfg.pairingCode != ""
  {
  }

  function Repeat(e: Event, n: nat): seq<Event> {
    if n == 0 then [] else [e] + Repeat(e, n - 1)
  }

  lemma {:induction false} RepeatHolds(e: Event, n: nat)
    ensures forall x | x in Repeat(e, n) :: x == e
  {
    if n > 0 {
      RepeatHolds(e, n - 1);
    }
  }

  lemma {:induction false} RunAppend(hash: string -> string, s: System, a: seq<Event>, b: seq<Event>, t: Tally)
    ensures Run(hash, s, a + b) == Run(hash, Run(hash, s, a), b)
    ensures TallyAfter(hash, s, a + b, t) == TallyAfter(hash, Run(hash, s, a), b, TallyAfter(hash, s, a, t))
    decreases |a|
  {
    if a == [] {
      assert a + b == b;
    } else {
      assert (a + b)[1..] == a[1..] + b;
      RunAppend(hash, Apply(hash, s, a[0]), a[1..], b, Tallied(s, a[0].op, t));
    }
  }

  lemma {:induction false} WrongCodeRepeatedly(hash: string -> string, s: System, e: Event, n: nat, t: Tally)
    requires !e.crash && e.op.Pair? && 0 < |e.op.node.name| <= MAX_NAME && e.op.code != s.store.mem.cfg.pairingCode
    requires s.store.mem.cfg.pairingFailures + n <= MAX_PAIRING_FAILURES + 1
    ensures var s' := Run(hash, s, Repeat(e, n));
            && s'.store.mem.cfg == s.store.mem.cfg.(pairingFailures := s.store.mem.cfg.pairingFailures + n)
            && CrashFree(Repeat(e, n))
    ensures TallyAfter(hash, s, Repeat(e, n), t) == t.(refused := t.refused + n)
    decreases n
  {
    if n > 0 {
      assert Repeat(e, n)[1..] == Repeat(e, n - 1);
      assert Tallied(s, e.op, t) == t.(refused := t.refused + 1);
      WrongCodeRepeatedly(hash, Apply(hash, s, e), e, n - 1, Tallied(s, e.op, t));
    }
  }

  /** A pairing would succeed on this configuration, given the right code in time. */
  predicate Pairable(cfg: Config) {
    cfg.pairingCode != "" && cfg.pairingFailures <= MAX_PAIRING_FAILURES
  }

  ghost predicate NoGeneration(es: seq<Event>) {
    forall e | e in es :: !e.op.GenerateCode?
  }

  ghost predicate SixAtMost(hash: string -> string, s: System, t: Tally) {
    forall es | NoGeneration(es) && NoConfigLost(hash, s, es) :: TallyAfter(hash, s, es, t).refused <= 6
  }

  const ANYONE := Node("n", "", "", "", "", 0, 0, 0, 0, 0)

  /** A request with the right code in time. */
  function RightCode(cfg: Config): Op {
    Pair(ANYONE, cfg.pairingCode, "", "", cfg.pairingExpiry, cfg.pairingExpiry)
  }

  function WrongCode(cfg: Config): Op {
    Pair(ANYONE, cfg.pairingCode + "x", "", "", 0, 0)
  }

  /** Guessing until the limiter closes, from any configuration. */
  lemma GuessToTheLimit(hash: string -> string, s: System, t: Tally) returns (es: seq<Event>)
    requires s.store.mem.cfg.pairingFailures <= MAX_PAIRING_FAILURES + 1
    ensures CrashFree(es) && NoGeneration(es)
    ensures TallyAfter(hash, s, es, t) ==
            t.(refused := t.refused + MAX_PAIRING_FAILURES + 1 - s.store.mem.cfg.pairingFailures)
  {
    var n := MAX_PAIRING_FAILURES + 1 - s.store.mem.cfg.pairingFailures;
    var wrong := Event(WrongCode(s.store.mem.cfg), 0, false);
    WrongCodeRepeatedly(hash, s, wrong, n, t);
    es := Repeat(wrong, n);
    RepeatHolds(wrong, n);
  }

  /** Using a live code first, after one wrong guess if there was none, opens a second budget. */
  lemma UseThenGuess(hash: string -> string, s: System, t: Tally) returns (es: seq<Event>)
    requires Pairable(s.store.mem.cfg) && t.refused >= s.store.mem.cfg.pairingFailures
    ensures CrashFree(es) && NoGeneration(es) && TallyAfter(hash, s, es, t).refused > 6
  {
    var wrong := Event(WrongCode(s.store.mem.cfg), 0, false);
    var right := Event(RightCode(s.store.mem.cfg), 0, false);
    var first := if t.refused == 0 then [wrong] else [];
    var s1, t1 := Run(hash, s, first), TallyAfter(hash, s, first, t);
    assert t1.refused > 0 && Pairable(s1.store.mem.cfg) && Pairs(s1, right.op) by {
      assert [wrong][1..] == [];
      assert Run(hash, s, [wrong]) == Apply(hash, s, wrong);
      assert TallyAfter(hash, s, [wrong], t) == Tallied(s, wrong.op, t);
    }
    var s2, t2 := Apply(hash, s1, right), Tallied(s1, right.op, t1);
    assert s2.store.mem.cfg.pairingFailures == 0 && t2.refused == t1.refused;
    var guesses := GuessToTheLimit(hash, s2, t2);
    assert ([right] + guesses)[1..] == guesses;
    assert TallyAfter(hash, s1, [right] + guesses, t1) == TallyAfter(hash, s2, guesses, t2);
    RunAppend(hash, s, first, [right] + guesses, t);
    es := first + ([right] + guesses);
  }

  /** Without a usable code the failure count only rises, and the tally rises with it. */
  lemma {:induction false} SpentBudgetHolds(hash: string -> string, s: System, es: seq<Event>, t: Tally)
    requires NoGeneration(es) && NoConfigLost(hash, s, es)
    requires s.store.mem.cfg.pairingFailures <= MAX_PAIRING_FAILURES + 1
    requires !Pairable(s.store.mem.cfg) && t.refused <= s.store.mem.cfg.pairingFailures
    ensures TallyAfter(hash, s, es, t).refused <= 6
    decreases |es|
  {
    if es != [] {
      assert es[0] in es;
      SpentBudgetHolds(hash, Apply(hash, s, es[0]), es[1..], Tallied(s, es[0].op, t));
    }
  }

  /**
   The six-refusal limit one expects of a code holds of every continuation before the next code whose
   restarts lose no configuration if and only if no code is live any more and the tally has not outrun
   the failure count. While a code is live it therefore never holds: using the code resets the count.
   */
  lemma SixRefusalsExactly(hash: string -> string, s: System, t: Tally)
    requires WithinBudget(s.store.mem.cfg, t)
    ensures SixAtMost(hash, s, t) <==>
              !Pairable(s.store.mem.cfg) && t.refused <= s.store.mem.cfg.pairingFailures
  {
    var cfg := s.store.mem.cfg;
    if Pairable(cfg) {
      var es := UseThenGuess(hash, s, t);
      CrashFreeLosesNothing(hash, s, es);
    } else if t.refused > cfg.pairingFailures {
      var es := GuessToTheLimit(hash, s, t);
      CrashFreeLosesNothing(hash, s, es);
    } else {
      forall es | NoGeneration(es) && NoConfigLost(hash, s, es) ensures TallyAfter(hash, s, es, t).refused <= 6 {
        SpentBudgetHolds(hash, s, es, t);
      }
    }
  }

  // ----- The life of a code -----

  /** Since the code was generated nobody has used it, and it has been missed at most five times. */
  lemma {:induction false} CodeStays(hash: string -> string, s: System, es: seq<Event>, t: Tally)
    requires NoGeneration(es) && NoConfigLost(hash, s, es) && t.refused == s.store.mem.cfg.pairingFailures
    requires TallyAfter(hash, s, es, t).paired == t.paired
    ensures Run(hash, s, es).store.mem.cfg ==
            s.store.mem.cfg.(pairingFailures := TallyAfter(hash, s, es, t).refused)
    decreases |es|
  {
    if es != [] {
      assert es[0] in es;
      PairedOnlyGrows(hash, Apply(hash, s, es[0]), es[1..], Tallied(s, es[0].op, t));
      CodeStays(hash, Apply(hash, s, es[0]), es[1..], Tallied(s, es[0].op, t));
    }
  }

  lemma {:induction false} PairedOnlyGrows(hash: string -> string, s: System, es: seq<Event>, t: Tally)
    requires NoGeneration(es)
    ensures TallyAfter(hash, s, es, t).paired >= t.paired
    decreases |es|
  {
    if es != [] {
      assert es[0] in es;
      PairedOnlyGrows(hash, Apply(hash, s, es[0]), es[1..], Tallied(s, es[0].op, t));
    }
  }

  /**
   From its generation on, whatever else runs and as long as restarts lose no configuration, a code that
   nobody has used pairs exactly the named nodes that give its six digits within five minutes, unless it
   has been missed six times.
   */
  lemma CodeWorksForItsLifetime(hash: string -> string, s: System, generated: Event, es: seq<Event>, op: Op)
    requires generated.op.GenerateCode? && !generated.crash && op.Pair?
    requires NoGeneration(es) && NoConfigLost(hash, Apply(hash, s, generated), es)
    requires TallyAfter(hash, Apply(hash, s, generated), es, Tally(0, 0)).paired == 0
    ensures var s' := Apply(hash, s, generated);
            Pairs(Run(hash, s', es), op) <==>
              && 1 <= |op.node.name| <= 64 && op.code == SixDigits(generated.op.draw)
              && op.now <= generated.op.at + 300 * SECOND && TallyAfter(hash, s', es, Tally(0, 0)).refused <= 5
  {
    CodeStays(hash, Apply(hash, s, generated), es, Tally(0, 0));
  }

  // ----- The budget across restarts -----

  /** No more than `n` refusals before the next code, whatever is lost in restarts. */
  ghost predicate AtMost(hash: string -> string, s: System, t: Tally, n: nat) {
    forall es | NoGeneration(es) :: TallyAfter(hash, s, es, t).refused <= n
  }

  /** The limiter is closed in memory and on disk. */
  predicate Closed(s: System) {
    && s.store.mem.cfg.pairingFailures > MAX_PAIRING_FAILURES
    && Recovered(s.store.disk).cfg.pairingFailures > MAX_PAIRING_FAILURES
  }

  lemma {:induction false} ClosedAdmitsNobody(hash: string -> string, s: System, es: seq<Event>, t: Tally)
    requires Closed(s) && NoGeneration(es)
    ensures TallyAfter(hash, s, es, t).refused == t.refused
    decreases |es|
  {
    if es != [] {
      assert es[0] in es;
      assert Closed(Apply(hash, s, es[0])) && Tallied(s, es[0].op, t) == t;
      ClosedAdmitsNobody(hash, Apply(hash, s, es[0]), es[1..], t);
    }
  }

  /** Any number of guesses is evaluated if a crash before the first rename follows each. */
  lemma {:induction false} CrashesLiftTheBudget(hash: string -> string, s: System, n: nat, t: Tally)
    requires s.store.mem.cfg.pairingFailures <= MAX_PAIRING_FAILURES
    requires Recovered(s.store.disk).cfg == s.store.mem.cfg
    ensures var es := Repeat(Event(WrongCode(s.store.mem.cfg), 0, true), n);
            && TallyAfter(hash, s, es, t) == t.(refused := t.refused + n)
            && Run(hash, s, es).store.mem.cfg == s.store.mem.cfg
    decreases n
  {
    if n > 0 {
      var guess := Event(WrongCode(s.store.mem.cfg), 0, true);
      assert Repeat(guess, n)[1..] == Repeat(guess, n - 1);
      var s' := Apply(hash, s, guess);
      assert s'.store.mem.cfg == s.store.mem.cfg == Recovered(s'.store.disk).cfg;
      CrashesLiftTheBudget(hash, s', n - 1, Tallied(s, guess.op, t));
    }
  }

  /** Where the disk is behind memory, a code is live or the pairing that used it added a worker. */
  predicate CodeOrWorker(s: System) {
    || s.store.mem.cfg.pairingCode != "" || s.store.mem.workers != map[]
    || Recovered(s.store.disk).cfg.pairingFailures <= s.store.mem.cfg.pairingFailures
  }

  lemma ApplyKeepsCodeOrWorker(hash: string -> string, s: System, e: Event)
    requires CodeOrWorker(s)
    ensures CodeOrWorker(Apply(hash, s, e))
  {
    var m, m' := s.store.mem, EffectOf(hash, s.store.mem, e.op).mem;
    if m'.cfg == m.cfg && m.workers != map[] {
      var id :| id in m.workers;
      assert id in m'.workers;
    }
    if Pairs(s, e.op) {
      assert WorkerId(e.op.suffix) in m'.workers;
    }
    assert e.op.GenerateCode? ==> |m'.cfg.pairingCode| == 6;
    assert Recovered(Apply(hash, s, e).store.disk).cfg in {Recovered(s.store.disk).cfg, m'.cfg};
  }

  lemma {:induction false} RunKeepsCodeOrWorker(hash: string -> string, s: System, es: seq<Event>)
    requires CodeOrWorker(s)
    ensures CodeOrWorker(Run(hash, s, es))
    decreases |es|
  {
    if es != [] {
      ApplyKeepsCodeOrWorker(hash, s, es[0]);
      RunKeepsCodeOrWorker(hash, Apply(hash, s, es[0]), es[1..]);
    }
  }

  /** The limiter is open, and a restart will find it as it is. */
  predicate OpenAndSaved(s: System) {
    Recovered(s.store.disk).cfg == s.store.mem.cfg && s.store.mem.cfg.pairingFailures <= MAX_PAIRING_FAILURES
  }

  /**
   One event gets there: a restart if the disk is open; else a save after a wrong guess, after using the
   code, or after a heartbeat, whichever leaves the count at five or less.
   */
  lemma OneEventOpens(hash: string -> string, s: System) returns (e: Event)
    requires CodeOrWorker(s) && !Closed(s)
    ensures OpenAndSaved(Apply(hash, s, e)) && !e.op.GenerateCode?
  {
    var m := s.store.mem;
    if Recovered(s.store.disk).cfg.pairingFailures <= MAX_PAIRING_FAILURES {
      e := Event(Idle, 0, true);
    } else if m.cfg.pairingFailures < MAX_PAIRING_FAILURES {
      e := Event(WrongCode(m.cfg), WRITE_STEPS, false);
    } else if m.cfg.pairingCode != "" {
      e := Event(RightCode(m.cfg), WRITE_STEPS, false);
    } else {
      var w :| w in m.workers;
      e := Event(Heartbeat(w, m.workers[w].tokenHash, 0, 0, 0), WRITE_STEPS, false);
    }
  }

  /** So any number of refusals can follow, unless the limiter is closed in both places. */
  lemma OpenExceedsAnyLimit(hash: string -> string, s: System, t: Tally, n: nat)
    requires CodeOrWorker(s) && !Closed(s)
    ensures !AtMost(hash, s, t, n)
  {
    var e := OneEventOpens(hash, s);
    var s', t' := Apply(hash, s, e), Tallied(s, e.op, t);
    var guess := Event(WrongCode(s'.store.mem.cfg), 0, true);
    CrashesLiftTheBudget(hash, s', n + 1, t');
    RepeatHolds(guess, n + 1);
    var es := [e] + Repeat(guess, n + 1);
    assert es[1..] == Repeat(guess, n + 1);
    assert TallyAfter(hash, s, es, t) == TallyAfter(hash, s', es[1..], t') == t'.(refused := t'.refused + n + 1);
    assert NoGeneration(es);
  }

  /**
   Across arbitrary restarts, `n` refusals are the limit of every continuation before the next code if
   and only if the limiter is closed in memory and on disk and the tally is within `n`; so there is some
   limit if and only if it is closed in both places.
   */
  lemma RefusalsLimitedExactly(hash: string -> string, s: System, t: Tally)
    requires Reachable(hash, s)
    ensures forall n: nat :: AtMost(hash, s, t, n) <==> Closed(s) && t.refused <= n
    ensures (exists n: nat :: AtMost(hash, s, t, n)) <==> Closed(s)
  {
    var es :| s == Run(hash, Start(), es);
    RunKeepsCodeOrWorker(hash, Start(), es);
    forall n: nat ensures AtMost(hash, s, t, n) <==> Closed(s) && t.refused <= n {
      if !Closed(s) {
        OpenExceedsAnyLimit(hash, s, t, n);
      } else {
        assert TallyAfter(hash, s, [], t) == t;
        assert AtMost(hash, s, t, n) ==> t.refused <= n by {
          assert NoGeneration([]);
        }
        forall es | NoGeneration(es) ensures TallyAfter(hash, s, es, t).refused == t.refused {
          ClosedAdmitsNobody(hash, s, es, t);
        }
      }
    }
    assert AtMost(hash, s, t, t.refused) <==> Closed(s);
  }

  /** Eleven evaluated refusals for one generated code do happen: five before its use, six after. */
  lemma ElevenRefusalsHappen(hash: string -> string, s: System)
    requires s.store.mem.cfg.pairingCode != "" && s.store.mem.cfg.pairingFailures == 0
    ensures exists es :: CrashFree(es) && TallyAfter(hash, s, es, Tally(0, 0)) == Tally(11, 1)
  {
    var wrong := Event(WrongCode(s.store.mem.cfg), 0, false);
    var right := Event(RightCode(s.store.mem.cfg), 0, false);
    WrongCodeRepeatedly(hash, s, wrong, 5, Tally(0, 0));
    var s5 := Run(hash, s, Repeat(wrong, 5));
    var used := Apply(hash, s5, right);
    assert Run(hash, s5, [right]) == used && TallyAfter(hash, s5, [right], Tally(5, 0)) == Tally(5, 1) by {
      assert [right][1..] == [];
      assert Tallied(s5, right.op, Tally(5, 0)) == Tally(5, 1);
    }
    WrongCodeRepeatedly(hash, used, wrong, 6, Tally(5, 1));
    RunAppend(hash, s5, [right], Repeat(wrong, 6), Tally(5, 0));
    RunAppend(hash, s, Repeat(wrong, 5), [right] + Repeat(wrong, 6), Tally(0, 0));
    var es := Repeat(wrong, 5) + ([right] + Repeat(wrong, 6));
    assert CrashFree(es) && TallyAfter(hash, s, es, Tally(0, 0)) == Tally(11, 1);
  }

  // ----- When a code is spent -----

  /** Somebody could still pair on this configuration at `since` or later. */
  predicate Usable(cfg: Config, since: Time) {
    Pairable(cfg) && since <= cfg.pairingExpiry
  }

  lemma {:induction false} NotUsableLasts(hash: string -> string, s: System, es: seq<Event>, since: Time)
    requires NoGeneration(es)
    requires !Usable(s.store.mem.cfg, since) && !Usable(Recovered(s.store.disk).cfg, since)
    ensures !Usable(Run(hash, s, es).store.mem.cfg, since)
    decreases |es|
  {
    if es != [] {
      assert !es[0].op.GenerateCode?;
      var m' := EffectOf(hash, s.store.mem, es[0].op).mem;
      assert !Usable(m'.cfg, since);
      assert Recovered(Apply(hash, s, es[0]).store.disk).cfg in {Recovered(s.store.disk).cfg, m'.cfg};
      NotUsableLasts(hash, Apply(hash, s, es[0]), es[1..], since);
    }
  }

  /** A run before the next code after which `op`, reading the clock at `since` or later, pairs. */
  ghost predicate CanStillPair(hash: string -> string, s: System, since: Time, es: seq<Event>, op: Op) {
    NoGeneration(es) && Pairs(Run(hash, s, es), op) && since <= op.now
  }

  /**
   From time `since` on, no worker can pair before the next code is generated, through any failed
   saves and restarts, if and only if neither memory nor disk holds a code usable then.
   */
  lemma SpentExactlyWhenNowhereUsable(hash: string -> string, s: System, since: Time)
    ensures (forall es, op :: !CanStillPair(hash, s, since, es, op)) <==>
              !Usable(s.store.mem.cfg, since) && !Usable(Recovered(s.store.disk).cfg, since)
  {
    if !Usable(s.store.mem.cfg, since) && !Usable(Recovered(s.store.disk).cfg, since) {
      forall es, op ensures !CanStillPair(hash, s, since, es, op) {
        if NoGeneration(es) {
          NotUsableLasts(hash, s, es, since);
        }
      }
    } else if Usable(s.store.mem.cfg, since) {
      var op := RightCode(s.store.mem.cfg);
      assert CanStillPair(hash, s, since, [], op);
    } else {
      var crash := Event(Idle, 0, true);
      var op := RightCode(Recovered(s.store.disk).cfg);
      assert Run(hash, s, [crash]) == Run(hash, Apply(hash, s, crash), [crash][1..]) == Apply(hash, s, crash);
      assert CanStillPair(hash, s, since, [crash], op);
    }
  }

  /**
   A pairing spends its code, in memory and on disk, exactly if its save got past the first rename or
   the disk held no usable code anyway.
   */
  lemma PairingSpendsTheCode(hash: string -> string, s: System, e: Event, since: Time)
    requires Pairs(s, e.op)
    ensures var s' := Apply(hash, s, e);
            !Usable(s'.store.mem.cfg, since) && !Usable(Recovered(s'.store.disk).cfg, since) <==>
              e.steps >= WRITE_STEPS || !Usable(Recovered(s.store.disk).cfg, since)
  {
  }

  /** The worker a pairing creates is online, and its own token is the only one it accepts. */
  lemma PairedWorkerHasItsToken(hash: string -> string, s: System, e: Event, tokenHash: string)
    requires Pairs(s, e.op) && !e.crash
    ensures OnlineAt(Apply(hash, s, e), WorkerId(e.op.suffix), e.op.tokenHash, e.op.seen)
    ensures Apply(hash, s, e).store.mem.workers[WorkerId(e.op.suffix)].node == e.op.node
    ensures Authorized(Apply(hash, s, e).store.mem, WorkerId(e.op.suffix), tokenHash) <==> tokenHash == e.op.tokenHash
    ensures Apply(hash, s, e).store.mem.jobs == s.store.mem.jobs
    ensures forall id | id in s.store.mem.workers && id != WorkerId(e.op.suffix) ::
              id in Apply(hash, s, e).store.mem.workers
              && Apply(hash, s, e).store.mem.workers[id] == s.store.mem.workers[id]
  {
  }
}
