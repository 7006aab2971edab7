/**
 Whole runs of the coordinator: any sequence of handlers and liveness sweeps, each of whose saves
 may stop after any primitive disk operation, with or without the process dying and restarting.
 */
module CoordinatorRuns {
  import opened Common
  import opened AtomicFiles
  import opened Coordinator

  datatype Op =
    | Idle
    | GenerateCode(draw: nat, at: Time)
    | Pair(node: Node, code: string, suffix: string, tokenHash: string, now: Time, seen: Time)
    | Heartbeat(workerId: string, tokenHash: string, ram: nat, disk: nat, at: Time)
    | TestJob(workerId: string, suffix: string, challenge: string)
    | Cancel(jobId: string, at: Time)
    | Post(jobId: string, tokenHash: string, update: Update, started: Time, ended: Time)
    | Dispatch(added: Jobs, complete: bool)
    | Sweep(clock: string -> Time)

  datatype Event = Event(op: Op, steps: nat, crash: bool)

  /** The store, and how many pairing codes were ever generated. */
  datatype System = System(store: State, generated: nat)

  function WorkerId(suffix: string): string {
    "worker-" + suffix
  }

  function JobId(suffix: string): string {
    "job-" + suffix
  }

  ghost function EffectOf(hash: string -> string, m: Memory, op: Op): Effect {
    match op
    case Idle => Effect(m, false)
    case GenerateCode(draw, at) => CodeGenerated(m, draw, at)
    case Pair(node, code, suffix, tokenHash, now, seen) =>
      PairEffect(m, node, code, WorkerId(suffix), tokenHash, now, seen)
    case Heartbeat(workerId, tokenHash, ram, disk, at) => HeartbeatEffect(m, workerId, tokenHash, ram, disk, at)
    case TestJob(workerId, suffix, challenge) => TestJobEffect(m, workerId, JobId(suffix), challenge)
    case Cancel(jobId, at) => CancelEffect(m, jobId, at)
    case Post(jobId, tokenHash, update, started, ended) =>
      UpdateEffect(hash, m, jobId, tokenHash, update, started, ended)
    case Dispatch(added, complete) => DispatchEffect(m, added, complete)
    case Sweep(clock) => SweepEffect(m, clock)
  }

  ghost function Apply(hash: string -> string, s: System, e: Event): System {
    var after := After(s.store, EffectOf(hash, s.store.mem, e.op), e.steps);
    System(if e.crash then State(Recovered(after.disk), after.disk) else after,
           s.generated + if e.op.GenerateCode? then 1 else 0)
  }

  ghost function Run(hash: string -> string, s: System, es: seq<Event>): System
    decreases |es|
  {
    if es == [] then s else Run(hash, Apply(hash, s, es[0]), es[1..])
  }

  function Start(): System {
    System(State(Memory(NO_CONFIG, map[], map[]),
                 Disk(Slot(Missing, Missing), Slot(Missing, Missing), Slot(Missing, Missing))), 0)
  }

  ghost predicate CrashFree(es: seq<Event>) {
    forall e | e in es :: !e.crash
  }

  predicate OnlineAt(s: System, id: string, tokenHash: string, last: Time) {
    && id in s.store.mem.workers
    && s.store.mem.workers[id].status == "online" && s.store.mem.workers[id].tokenHash == tokenHash
    && s.store.mem.workers[id].lastSeen == last
  }

  // ----- Crash consistency -----

  function LiveCodes(cfg: Config): nat {
    if cfg.pairingCode == "" then 0 else 1
  }

  /** Sound memory contents, given how many codes were ever generated. */
  ghost predicate MemoryOk(m: Memory, generated: nat) {
    && (forall id | id in m.workers :: id != "" && m.workers[id].id == id)
    && (forall id | id in m.jobs :: m.jobs[id].id == id && m.jobs[id].workerId in m.workers)
    && (forall id | id in m.jobs :: Final(m.jobs[id].status) ==> m.jobs[id].endTime.Some?)
    && |m.workers| + LiveCodes(m.cfg) <= generated
    && m.cfg.pairingFailures <= MAX_PAIRING_FAILURES + 1
  }

  ghost predicate Inv(s: System) {
    && MemoryOk(s.store.mem, s.generated)
    && MemoryOk(Recovered(s.store.disk), s.generated)
    && Recovered(s.store.disk).workers.Keys <= s.store.mem.workers.Keys
  }

  /** At every point of a save the disk is sound: this is where the order of the files matters. */
  lemma SaveKeeps(d: Disk, m: Memory, generated: nat, steps: nat)
    requires MemoryOk(m, generated) && MemoryOk(Recovered(d), generated)
    requires Recovered(d).workers.Keys <= m.workers.Keys
    ensures var d' := SavedUpTo(d, m, steps);
            MemoryOk(Recovered(d'), generated) && Recovered(d').workers.Keys <= m.workers.Keys
  {
    SubsetSize(Recovered(d).workers.Keys, m.workers.Keys);
    var before, after := Recovered(d), Recovered(SavedUpTo(d, m, steps));
    assert after.cfg == if steps < WRITE_STEPS then before.cfg else m.cfg;
    assert after.workers == if steps < 2 * WRITE_STEPS then before.workers else m.workers;
    assert after.jobs == if steps < SAVE_STEPS then before.jobs else m.jobs;
  }

  lemma AddWorkerSize(workers: Workers, w: Worker)
    ensures |workers[w.id := w]| <= |workers| + 1
  {
    assert workers[w.id := w].Keys == workers.Keys + {w.id};
    assert |workers.Keys + {w.id}| <= |workers.Keys| + 1;
  }

  /** Trading the live code for one more worker keeps the count. */
  lemma AddWorkerKeepsMemory(m: Memory, w: Worker, generated: nat)
    requires MemoryOk(m, generated) && m.cfg.pairingCode != "" && w.id != ""
    ensures var cfg := m.cfg.(pairingCode := "", pairingFailures := 0);
            MemoryOk(m.(cfg := cfg, workers := m.workers[w.id := w]), generated)
  {
    AddWorkerSize(m.workers, w);
  }

  lemma PairKeepsMemory(m: Memory, op: Op, generated: nat)
    requires MemoryOk(m, generated) && op.Pair?
    ensures var m' := PairEffect(m, op.node, op.code, WorkerId(op.suffix), op.tokenHash, op.now, op.seen).mem;
            MemoryOk(m', generated) && m.workers.Keys <= m'.workers.Keys
  {
    if PairOutcome(m.cfg, op.node, op.code, WorkerId(op.suffix), op.now).Paired? {
      AddWorkerKeepsMemory(m, Worker(WorkerId(op.suffix), op.node, op.seen, op.tokenHash, "online"), generated);
    }
  }

  /** Putting one sound job into the table keeps it sound. */
  lemma PutJobKeepsMemory(m: Memory, job: Job, generated: nat)
    requires MemoryOk(m, generated) && job.workerId in m.workers && (Final(job.status) ==> job.endTime.Some?)
    ensures MemoryOk(m.(jobs := m.jobs[job.id := job]), generated)
  {
  }

  /** Handlers that only touch jobs. */
  lemma JobEffectKeepsMemory(hash: string -> string, m: Memory, op: Op, generated: nat)
    requires MemoryOk(m, generated) && (op.TestJob? || op.Cancel? || op.Post? || op.Dispatch?)
    ensures MemoryOk(EffectOf(hash, m, op).mem, generated)
  {
    if op.TestJob? && op.workerId in m.workers {
      PutJobKeepsMemory(m, NewJob(JobId(op.suffix), op.workerId, "test").(challenge := op.challenge), generated);
    } else if op.Cancel? && op.jobId in m.jobs {
      PutJobKeepsMemory(m, Cancelled(m.jobs[op.jobId], op.at), generated);
    } else if op.Post? {
      var reply := UpdateOutcome(hash, m, op.jobId, op.tokenHash, op.update, op.started, op.ended);
      if reply.Accepted? {
        UpdateEvolves(hash, m.jobs[op.jobId], op.update, op.started, op.ended);
        PutJobKeepsMemory(m, reply.job, generated);
      }
    }
  }

  /** Heartbeats and sweeps touch no job and neither add nor remove a worker. */
  lemma WorkerEffectKeepsMemory(hash: string -> string, m: Memory, op: Op, generated: nat)
    requires MemoryOk(m, generated) && (op.Heartbeat? || op.Sweep?)
    ensures MemoryOk(EffectOf(hash, m, op).mem, generated)
    ensures EffectOf(hash, m, op).mem.workers.Keys == m.workers.Keys
  {
    var m' := EffectOf(hash, m, op).mem;
    assert m'.workers.Keys == m.workers.Keys;
    assert |m'.workers.Keys| == |m.workers.Keys|;
  }

  lemma EffectKeepsMemory(hash: string -> string, m: Memory, op: Op, generated: nat)
    requires MemoryOk(m, generated)
    ensures var m' := EffectOf(hash, m, op).mem;
            && MemoryOk(m', generated + if op.GenerateCode? then 1 else 0)
            && m.workers.Keys <= m'.workers.Keys
  {
    if op.Pair? {
      PairKeepsMemory(m, op, generated);
    } else if op.Heartbeat? || op.Sweep? {
      WorkerEffectKeepsMemory(hash, m, op, generated);
    } else if op.TestJob? || op.Cancel? || op.Post? || op.Dispatch? {
      JobEffectKeepsMemory(hash, m, op, generated);
    }
  }

  lemma ApplyKeepsInv(hash: string -> string, s: System, e: Event)
    requires Inv(s)
    ensures Inv(Apply(hash, s, e))
  {
    EffectKeepsMemory(hash, s.store.mem, e.op, s.generated);
    var m' := EffectOf(hash, s.store.mem, e.op).mem;
    SaveKeeps(s.store.disk, m', Apply(hash, s, e).generated, e.steps);
  }

  lemma {:induction false} RunKeepsInv(hash: string -> string, s: System, es: seq<Event>)
    requires Inv(s)
    ensures Inv(Run(hash, s, es))
    decreases |es|
  {
    if es != [] {
      ApplyKeepsInv(hash, s, es[0]);
      RunKeepsInv(hash, Apply(hash, s, es[0]), es[1..]);
    }
  }

  /** The promises that span the three files. */
  ghost predicate Sound(m: Memory, generated: nat) {
    && (forall id | id in m.jobs :: m.jobs[id].workerId in m.workers)
    && (forall id | id in m.jobs :: Final(m.jobs[id].status) ==> m.jobs[id].endTime.Some?)
    && |m.workers| + LiveCodes(m.cfg) <= generated
  }

  ghost predicate Reachable(hash: string -> string, s: System) {
    exists es :: s == Run(hash, Start(), es)
  }

  /**
   However a run was cut short, what a restart finds is sound: every job's worker is there, a
   finished job has an end time, and the workers plus the code still open never outnumber the
   codes that were generated. The same holds of memory.
   */
  lemma CrashConsistency(hash: string -> string, s: System)
    requires Reachable(hash, s)
    ensures Sound(Recovered(s.store.disk), s.generated)
    ensures Sound(s.store.mem, s.generated)
  {
    var es :| s == Run(hash, Start(), es);
    RunKeepsInv(hash, Start(), es);
  }

  // ----- Jobs only move forward -----

  /** `b` is `a` some handlers later: the attempt never changes once bound and the log only grows. */
  predicate JobEvolves(a: Job, b: Job) {
    && b == a.(attemptId := b.attemptId, status := b.status, startTime := b.startTime, endTime := b.endTime,
               result := b.result, logs := b.logs)
    && (a.attemptId != "" ==> b.attemptId == a.attemptId)
    && a.logs <= b.logs
    && (a.startTime.Some? ==> b.startTime.Some?)
    && (a.endTime.Some? ==> b.endTime.Some?)
  }

  ghost predicate JobsBelow(older: Jobs, newer: Jobs) {
    forall id | id in older :: id in newer && JobEvolves(older[id], newer[id])
  }

  lemma JobsBelowTransitive(a: Jobs, b: Jobs, c: Jobs)
    requires JobsBelow(a, b) && JobsBelow(b, c)
    ensures JobsBelow(a, c)
  {
    forall id | id in a ensures id in c && JobEvolves(a[id], c[id]) {
      assert JobEvolves(a[id], b[id]) && JobEvolves(b[id], c[id]);
    }
  }

  /** Random IDs do not repeat one that is in use. */
  predicate Fresh(m: Memory, op: Op) {
    && (op.TestJob? ==> JobId(op.suffix) !in m.jobs)
    && (op.Pair? ==> WorkerId(op.suffix) !in m.workers)
  }

  ghost predicate FreshRun(hash: string -> string, s: System, es: seq<Event>)
    decreases |es|
  {
    es == [] || (Fresh(s.store.mem, es[0].op) && FreshRun(hash, Apply(hash, s, es[0]), es[1..]))
  }

  lemma UpdateEvolves(hash: string -> string, job: Job, u: Update, started: Time, ended: Time)
    requires !Fenced(job, u)
    ensures JobEvolves(job, Updated(hash, job, u, started, ended))
    ensures Updated(hash, job, u, started, ended).attemptId in {job.attemptId, u.attemptId}
    ensures job.attemptId != "" ==> u.attemptId == job.attemptId
    ensures Final(Updated(hash, job, u, started, ended).status) ==>
              Updated(hash, job, u, started, ended).endTime == Some(ended)
  {
  }

  lemma EffectEvolvesJobs(hash: string -> string, m: Memory, op: Op)
    requires Fresh(m, op)
    ensures JobsBelow(m.jobs, EffectOf(hash, m, op).mem.jobs)
  {
    if op.Post? && UpdateOutcome(hash, m, op.jobId, op.tokenHash, op.update, op.started, op.ended).Accepted? {
      UpdateEvolves(hash, m.jobs[op.jobId], op.update, op.started, op.ended);
    }
  }

  /** The jobs a restart would find. */
  function SavedJobs(s: System): Jobs {
    Recovered(s.store.disk).jobs
  }

  lemma ApplyEvolvesJobs(hash: string -> string, s: System, e: Event)
    requires JobsBelow(SavedJobs(s), s.store.mem.jobs) && Fresh(s.store.mem, e.op)
    ensures var s' := Apply(hash, s, e);
            && JobsBelow(SavedJobs(s'), s'.store.mem.jobs)
            && JobsBelow(SavedJobs(s), SavedJobs(s'))
            && (!e.crash ==> JobsBelow(s.store.mem.jobs, s'.store.mem.jobs))
  {
    var m' := EffectOf(hash, s.store.mem, e.op).mem;
    EffectEvolvesJobs(hash, s.store.mem, e.op);
    JobsBelowTransitive(SavedJobs(s), s.store.mem.jobs, m'.jobs);
    assert SavedJobs(Apply(hash, s, e)) == SavedJobs(s) || SavedJobs(Apply(hash, s, e)) == m'.jobs;
  }

  /**
   Attempt binding, whatever the workers send, in whatever order and however often: a job that is
   on disk, or in the memory of a process that does not crash, keeps its attempt ID and its log
   prefix for ever.
   */
  lemma {:induction false} AttemptBinding(hash: string -> string, s: System, es: seq<Event>)
    requires JobsBelow(SavedJobs(s), s.store.mem.jobs) && FreshRun(hash, s, es)
    ensures var later := Run(hash, s, es);
            && JobsBelow(SavedJobs(s), SavedJobs(later)) && JobsBelow(SavedJobs(s), later.store.mem.jobs)
            && JobsBelow(SavedJobs(later), later.store.mem.jobs)
            && (CrashFree(es) ==> JobsBelow(s.store.mem.jobs, later.store.mem.jobs))
    decreases |es|
  {
    if es != [] {
      var s', later := Apply(hash, s, es[0]), Run(hash, s, es);
      ApplyEvolvesJobs(hash, s, es[0]);
      AttemptBinding(hash, s', es[1..]);
      JobsBelowTransitive(SavedJobs(s), SavedJobs(s'), SavedJobs(later));
      JobsBelowTransitive(SavedJobs(s), SavedJobs(s'), later.store.mem.jobs);
      if CrashFree(es) {
        JobsBelowTransitive(s.store.mem.jobs, s'.store.mem.jobs, later.store.mem.jobs);
      }
    }
  }

  /** Reached by a run whose random IDs were fresh. */
  ghost predicate ReachableFresh(hash: string -> string, s: System) {
    exists es :: FreshRun(hash, Start(), es) && s == Run(hash, Start(), es)
  }

  /** In every such state the disk is never ahead of memory. */
  lemma DiskNeverAhead(hash: string -> string, s: System)
    requires ReachableFresh(hash, s)
    ensures JobsBelow(SavedJobs(s), s.store.mem.jobs)
  {
    var es :| FreshRun(hash, Start(), es) && s == Run(hash, Start(), es);
    AttemptBinding(hash, Start(), es);
  }

  /** So an update is accepted later only if it carries the attempt ID the job was bound to. */
  lemma LaterUpdatesCarryTheAttempt(hash: string -> string, s: System, es: seq<Event>, jobId: string,
                                    tokenHash: string, u: Update, started: Time, ended: Time)
    requires ReachableFresh(hash, s) && FreshRun(hash, s, es)
    requires jobId in s.store.mem.jobs && s.store.mem.jobs[jobId].attemptId != ""
    requires CrashFree(es) || (jobId in SavedJobs(s) && SavedJobs(s)[jobId].attemptId != "")
    requires UpdateOutcome(hash, Run(hash, s, es).store.mem, jobId, tokenHash, u, started, ended).Accepted?
    ensures u.attemptId == s.store.mem.jobs[jobId].attemptId
  {
    DiskNeverAhead(hash, s);
    AttemptBinding(hash, s, es);
    var later := Run(hash, s, es).store.mem;
    if CrashFree(es) {
      assert JobEvolves(s.store.mem.jobs[jobId], later.jobs[jobId]);
    } else {
      assert JobEvolves(SavedJobs(s)[jobId], s.store.mem.jobs[jobId]);
      assert JobEvolves(SavedJobs(s)[jobId], later.jobs[jobId]);
    }
  }

  ghost predicate KeepsAttempt(hash: string -> string, s: System, es: seq<Event>, jobId: string, attemptId: string) {
    var jobs := Run(hash, s, es).store.mem.jobs;
    jobId in jobs && jobs[jobId].attemptId == attemptId
  }

  /**
   Every handler ignores a failed save, so an accepted update may be lost in a restart: a job's binding
   outlives every future if and only if the job is on disk bound.
   */
  lemma BindingSurvivesExactly(hash: string -> string, s: System, jobId: string)
    requires ReachableFresh(hash, s) && jobId in s.store.mem.jobs && s.store.mem.jobs[jobId].attemptId != ""
    ensures (forall es | FreshRun(hash, s, es) ::
               KeepsAttempt(hash, s, es, jobId, s.store.mem.jobs[jobId].attemptId)) <==>
            jobId in SavedJobs(s) && SavedJobs(s)[jobId].attemptId != ""
  {
    var attemptId := s.store.mem.jobs[jobId].attemptId;
    DiskNeverAhead(hash, s);
    if jobId in SavedJobs(s) && SavedJobs(s)[jobId].attemptId != "" {
      assert JobEvolves(SavedJobs(s)[jobId], s.store.mem.jobs[jobId]);
      forall es | FreshRun(hash, s, es) ensures KeepsAttempt(hash, s, es, jobId, attemptId) {
        AttemptBinding(hash, s, es);
        assert JobEvolves(SavedJobs(s)[jobId], Run(hash, s, es).store.mem.jobs[jobId]);
      }
    } else {
      var crash := Event(Idle, 0, true);
      RunStep(hash, s, crash, []);
      assert [crash] + [] == [crash] && Run(hash, s, [crash]).store.mem.jobs == SavedJobs(s);
      assert FreshRun(hash, s, [crash]) && !KeepsAttempt(hash, s, [crash], jobId, attemptId);
    }
  }

  lemma RunStep(hash: string -> string, s: System, e: Event, es: seq<Event>)
    ensures Run(hash, s, [e] + es) == Run(hash, Apply(hash, s, e), es)
    ensures FreshRun(hash, s, [e] + es) <==> Fresh(s.store.mem, e.op) && FreshRun(hash, Apply(hash, s, e), es)
  {
    assert ([e] + es)[1..] == es;
  }

  /** Such a loss happens: a first post is accepted and binds the job, and its save fails at once. */
  lemma UnsavedBindingHappens(hash: string -> string, attemptId: string)
    requires attemptId != ""
    ensures exists s, jobId ::
              && ReachableFresh(hash, s) && jobId in s.store.mem.jobs && jobId in SavedJobs(s)
              && s.store.mem.jobs[jobId].attemptId == attemptId && SavedJobs(s)[jobId].attemptId == ""
  {
    var node := Node("n", "", "", "", "", 0, 0, 0, 0, 0);
    var e0 := Event(GenerateCode(0, 0), SAVE_STEPS, false);
    var e1 := Event(Pair(node, SixDigits(0), "w", "h", 0, 0), SAVE_STEPS, false);
    var e2 := Event(TestJob(WorkerId("w"), "j", "c"), SAVE_STEPS, false);
    var e3 := Event(Post(JobId("j"), "h", Update(attemptId, "running", "", []), 0, 0), 0, false);
    var s1 := Apply(hash, Start(), e0);
    var s2 := Apply(hash, s1, e1);
    var s3 := Apply(hash, s2, e2);
    var s4 := Apply(hash, s3, e3);
    assert s1.store.mem.cfg == Config(SixDigits(0), CODE_LIFETIME, 0) && |SixDigits(0)| == 6;
    assert Authorized(s2.store.mem, WorkerId("w"), "h");
    assert s3.store.mem.jobs[JobId("j")].workerId == WorkerId("w") && SavedJobs(s3) == s3.store.mem.jobs;
    RunStep(hash, Start(), e0, [e1] + ([e2] + ([e3] + [])));
    RunStep(hash, s1, e1, [e2] + ([e3] + []));
    RunStep(hash, s2, e2, [e3] + []);
    RunStep(hash, s3, e3, []);
    assert ReachableFresh(hash, s4);
  }
}
