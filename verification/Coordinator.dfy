/**
 The coordinator: its configuration, workers and jobs, the three files that hold them, and the
 request handlers. Each handler runs under the store's lock from its first read to the end of its
 save, so a handler is one step. A save's outcome is ignored by every handler.
 */
module Coordinator {
  import opened Common
  import opened AtomicFiles
  import opened Decimals

  const CODE_LIFETIME := 5 * MINUTE
  const MAX_PAIRING_FAILURES: nat := 5
  const MAX_NAME: nat := 64
  const SILENCE_LIMIT := 15 * SECOND
  const REJECTED := "ERROR: Coordinator rejected challenge result"

  datatype Config = Config(pairingCode: string, pairingExpiry: Time, pairingFailures: nat)

  datatype Node = Node(
    name: string, os: string, osVersion: string, cpuModel: string, architecture: string, physicalCores: int,
    logicalProcessors: int, totalRam: nat, availableRam: nat, freeDisk: nat)

  datatype Worker = Worker(id: string, node: Node, lastSeen: Time, tokenHash: string, status: string)

  datatype Job = Job(
    id: string, attemptId: string, workerId: string, task: string, status: string,
    startTime: Option<Time>, endTime: Option<Time>, result: string, logs: seq<string>,
    profile: string, args: seq<string>, env: map<string, string>, timeoutSeconds: int, challenge: string)

  type Workers = map<string, Worker>
  type Jobs = map<string, Job>

  datatype Memory = Memory(cfg: Config, workers: Workers, jobs: Jobs)
  datatype Disk = Disk(cfg: Slot<Config>, workers: Slot<Workers>, jobs: Slot<Jobs>)
  datatype State = State(mem: Memory, disk: Disk)

  const NO_CONFIG := Config("", 0, 0)

  // ----- Disk -----

  const SAVE_STEPS: nat := 3 * WRITE_STEPS

  /** The disk after `steps` primitive operations of a save: configuration, then workers, then jobs. */
  function SavedUpTo(d: Disk, m: Memory, steps: nat): Disk {
    Disk(WrittenUpTo(d.cfg, m.cfg, steps),
         if steps <= WRITE_STEPS then d.workers else WrittenUpTo(d.workers, m.workers, steps - WRITE_STEPS),
         if steps <= 2 * WRITE_STEPS then d.jobs else WrittenUpTo(d.jobs, m.jobs, steps - 2 * WRITE_STEPS))
  }

  /** A file that is missing or does not parse leaves the initial value in place. */
  function ReadOr<T>(c: Content<T>, initial: T): T {
    if c.Whole? then c.value else initial
  }

  function Recovered(d: Disk): Memory {
    Memory(ReadOr(d.cfg.published, NO_CONFIG), ReadOr(d.workers.published, map[]), ReadOr(d.jobs.published, map[]))
  }

  /** What a handler does to memory, and whether it then saves. */
  datatype Effect = Effect(mem: Memory, saves: bool)

  function After(s: State, e: Effect, steps: nat): State {
    State(e.mem, if e.saves then SavedUpTo(s.disk, e.mem, steps) else s.disk)
  }

  // ----- Pairing -----

  /** The code printed for a random draw: six decimal digits. */
  function SixDigits(draw: nat): string {
    Padded(draw % 1000000, 6)
  }

  function CodeGenerated(m: Memory, draw: nat, now: Time): Effect {
    Effect(m.(cfg := Config(SixDigits(draw), now + CODE_LIFETIME, 0)), true)
  }

  datatype PairReply = Paired(workerId: string) | InvalidName | RateLimited | Refused

  function PairOutcome(cfg: Config, node: Node, code: string, workerId: string, now: Time): PairReply {
    if |node.name| == 0 || |node.name| > MAX_NAME then InvalidName
    else if cfg.pairingFailures > MAX_PAIRING_FAILURES then RateLimited
    else if cfg.pairingCode == "" || cfg.pairingCode != code || now > cfg.pairingExpiry then Refused
    else Paired(workerId)
  }

  function PairEffect(m: Memory, node: Node, code: string, workerId: string, tokenHash: string,
                      now: Time, seen: Time): Effect
  {
    match PairOutcome(m.cfg, node, code, workerId, now)
    case InvalidName => Effect(m, false)
    case RateLimited => Effect(m, false)
    case Refused => Effect(m.(cfg := m.cfg.(pairingFailures := m.cfg.pairingFailures + 1)), true)
    case Paired(_) =>
      Effect(m.(cfg := m.cfg.(pairingCode := "", pairingFailures := 0),
                workers := m.workers[workerId := Worker(workerId, node, seen, tokenHash, "online")]), true)
  }

  // ----- Workers -----

  predicate Authorized(m: Memory, workerId: string, tokenHash: string) {
    workerId in m.workers && m.workers[workerId].tokenHash == tokenHash
  }

  function HeartbeatEffect(m: Memory, workerId: string, tokenHash: string, ram: nat, disk: nat, now: Time): Effect {
    if !Authorized(m, workerId, tokenHash) then Effect(m, false)
    else
      var w := m.workers[workerId];
      var w' := w.(node := w.node.(availableRam := ram, freeDisk := disk), lastSeen := now, status := "online");
      Effect(m.(workers := m.workers[workerId := w']), true)
  }

  /** A worker that a sweep looking at it at time `now` takes offline. */
  predicate Silent(w: Worker, now: Time) {
    w.status == "online" && now - w.lastSeen > SILENCE_LIMIT
  }

  function Swept(workers: Workers, clock: string -> Time): Workers {
    map id | id in workers ::
      if Silent(workers[id], clock(id)) then workers[id].(status := "offline") else workers[id]
  }

  function SweepEffect(m: Memory, clock: string -> Time): Effect {
    Effect(m.(workers := Swept(m.workers, clock)), exists id :: id in m.workers && Silent(m.workers[id], clock(id)))
  }

  // ----- Jobs -----

  function NewJob(id: string, workerId: string, task: string): Job {
    Job(id, "", workerId, task, "pending", None, None, "", [], "", [], map[], 0, "")
  }

  function TestJobEffect(m: Memory, workerId: string, jobId: string, challenge: string): Effect {
    if workerId !in m.workers then Effect(m, false)
    else Effect(m.(jobs := m.jobs[jobId := NewJob(jobId, workerId, "test").(challenge := challenge)]), true)
  }

  function Cancelled(job: Job, now: Time): Job {
    job.(status := "cancelled", endTime := Some(now))
  }

  function CancelEffect(m: Memory, jobId: string, now: Time): Effect {
    if jobId !in m.jobs then Effect(m, false)
    else Effect(m.(jobs := m.jobs[jobId := Cancelled(m.jobs[jobId], now)]), true)
  }

  datatype Update = Update(attemptId: string, status: string, result: string, logs: seq<string>)

  predicate Final(status: string) {
    status in {"completed", "failed", "cancelled"}
  }

  predicate Fenced(job: Job, u: Update) {
    job.attemptId != "" && u.attemptId != job.attemptId
  }

  predicate Starts(job: Job, u: Update) {
    job.status == "pending" && u.status == "running"
  }

  predicate ProofRequired(job: Job, u: Update) {
    u.result != "" && job.task == "test" && u.status == "completed"
  }

  predicate ProofWrong(hash: string -> string, job: Job, u: Update) {
    ProofRequired(job, u) && u.result != hash(job.challenge)
  }

  /** A job after a worker's update got past the fence. */
  function Updated(hash: string -> string, job: Job, u: Update, started: Time, ended: Time): Job {
    job.(
    attemptId := if Starts(job, u) && job.attemptId == "" then u.attemptId else job.attemptId,
    startTime := if Starts(job, u) then Some(started) else job.startTime,
    status := if ProofWrong(hash, job, u) then "failed" else u.status,
    result := if ProofWrong(hash, job, u) then "challenge verification failed"
              else if ProofRequired(job, u) then "success"
              else if u.result != "" then u.result else job.result,
    logs := job.logs + (if ProofWrong(hash, job, u) then [REJECTED] else []) + u.logs,
    endTime := if Final(u.status) then Some(ended) else job.endTime)
  }

  datatype UpdateReply = Accepted(job: Job) | NotFound | Unauthorized | Conflict

  function UpdateOutcome(hash: string -> string, m: Memory, jobId: string, tokenHash: string, u: Update,
                         started: Time, ended: Time): UpdateReply
  {
    if jobId !in m.jobs then NotFound
    else if !Authorized(m, m.jobs[jobId].workerId, tokenHash) then Unauthorized
    else if Fenced(m.jobs[jobId], u) then Conflict
    else Accepted(Updated(hash, m.jobs[jobId], u, started, ended))
  }

  function UpdateEffect(hash: string -> string, m: Memory, jobId: string, tokenHash: string, u: Update,
                        started: Time, ended: Time): Effect
  {
    var reply := UpdateOutcome(hash, m, jobId, tokenHash, u, started, ended);
    if reply.Accepted? then Effect(m.(jobs := m.jobs[jobId := reply.job]), true) else Effect(m, false)
  }

  /** What the scheduler may add: fresh pending jobs on known workers. */
  ghost predicate Dispatchable(m: Memory, added: Jobs) {
    forall id | id in added ::
      && id !in m.jobs && added[id].id == id && added[id].workerId in m.workers
      && added[id].status == "pending" && added[id].attemptId == ""
  }

  /**
   A manifest has at least one task. Jobs scheduled before it fails stay in memory, unsaved until the
   next save.
   */
  ghost function DispatchEffect(m: Memory, added: Jobs, complete: bool): Effect {
    if Dispatchable(m, added) && (complete ==> added != map[])
    then Effect(m.(jobs := m.jobs + added), complete)
    else Effect(m, false)
  }

  /** The field-by-field part of handling an update. */
  method UpdateJob(hash: string -> string, before: Job, u: Update, started: Time, ended: Time) returns (job: Job)
    ensures job == Updated(hash, before, u, started, ended)
  {
    job := before;
    if job.status == "pending" && u.status == "running" {
      job := job.(startTime := Some(started));
      if job.attemptId == "" {
        job := job.(attemptId := u.attemptId);
      }
    }
    job := job.(status := u.status);
    if u.result != "" {
      if job.task == "test" && u.status == "completed" {
        if u.result != hash(job.challenge) {
          job := job.(status := "failed");
          job := job.(result := "challenge verification failed");
          job := job.(logs := job.logs + [REJECTED]);
        } else {
          job := job.(result := "success");
        }
      } else {
        job := job.(result := u.result);
      }
    }
    ghost var noted := before.logs + if ProofWrong(hash, before, u) then [REJECTED] else [];
    assert job.logs == noted && noted + [] == noted;
    if |u.logs| > 0 {
      job := job.(logs := job.logs + u.logs);
    }
    assert job.logs == noted + u.logs;
    if u.status == "completed" || u.status == "failed" || u.status == "cancelled" {
      job := job.(endTime := Some(ended));
    }
  }

  // ----- The coordinator -----

  class Store {
    var cfg: Config
    var workers: Workers
    var jobs: Jobs
    const cfgFile: AtomicFile<Config>
    const workersFile: AtomicFile<Workers>
    const jobsFile: AtomicFile<Jobs>

    ghost function Abstract(): State
      reads this, cfgFile, workersFile, jobsFile
    {
      State(Memory(cfg, workers, jobs), Disk(cfgFile.State(), workersFile.State(), jobsFile.State()))
    }

    /** Opens the store on three existing files and loads them; whatever cannot be read is skipped. */
    constructor (cfgFile: AtomicFile<Config>, workersFile: AtomicFile<Workers>, jobsFile: AtomicFile<Jobs>)
      ensures this.cfgFile == cfgFile && this.workersFile == workersFile && this.jobsFile == jobsFile
      ensures Abstract().mem == Recovered(Abstract().disk)
    {
      this.cfgFile, this.workersFile, this.jobsFile := cfgFile, workersFile, jobsFile;
      cfg, workers, jobs := NO_CONFIG, map[], map[];
      new;
      if cfgFile.published.Whole? {
        cfg := cfgFile.published.value;
      }
      if workersFile.published.Whole? {
        workers := workersFile.published.value;
      }
      if jobsFile.published.Whole? {
        jobs := jobsFile.published.value;
      }
    }

    ghost predicate Separate() {
      && cfgFile as object != workersFile as object && workersFile as object != jobsFile as object
      && cfgFile as object != jobsFile as object
    }

    method Save(steps: nat) returns (ok: bool)
      requires Separate()
      modifies cfgFile, workersFile, jobsFile
      ensures Abstract() == State(old(Abstract()).mem, SavedUpTo(old(Abstract()).disk, old(Abstract()).mem, steps))
      ensures ok == (steps >= SAVE_STEPS)
    {
      ok := cfgFile.Write(cfg, steps);
      if !ok {
        return false;
      }
      ok := workersFile.Write(workers, steps - WRITE_STEPS);
      if !ok {
        return false;
      }
      ok := jobsFile.Write(jobs, steps - 2 * WRITE_STEPS);
    }

    method HandleGenerateCode(draw: nat, now: Time, steps: nat) returns (code: string)
      requires Separate()
      modifies this`cfg, cfgFile, workersFile, jobsFile
      ensures Abstract() == After(old(Abstract()), CodeGenerated(old(Abstract()).mem, draw, now), steps)
      ensures code == cfg.pairingCode && |code| == 6
    {
      code := SixDigits(draw);
      cfg := cfg.(pairingCode := code);
      cfg := cfg.(pairingExpiry := now + CODE_LIFETIME);
      cfg := cfg.(pairingFailures := 0);
      var _ := Save(steps);
    }

    method HandlePair(node: Node, code: string, workerId: string, tokenHash: string, now: Time, seen: Time, steps: nat)
      returns (reply: PairReply)
      requires Separate()
      modifies this`cfg, this`workers, cfgFile, workersFile, jobsFile
      ensures reply == PairOutcome(old(cfg), node, code, workerId, now)
      ensures Abstract() ==
              After(old(Abstract()), PairEffect(old(Abstract()).mem, node, code, workerId, tokenHash, now, seen), steps)
    {
      if node.name == "" || |node.name| > MAX_NAME {
        return InvalidName;
      }
      if cfg.pairingFailures > MAX_PAIRING_FAILURES {
        return RateLimited;
      }
      if cfg.pairingCode == "" || cfg.pairingCode != code || now > cfg.pairingExpiry {
        cfg := cfg.(pairingFailures := cfg.pairingFailures + 1);
        var _ := Save(steps);
        return Refused;
      }
      cfg := cfg.(pairingCode := "");
      cfg := cfg.(pairingFailures := 0);
      workers := workers[workerId := Worker(workerId, node, seen, tokenHash, "online")];
      var _ := Save(steps);
      return Paired(workerId);
    }

    method HandleHeartbeat(workerId: string, tokenHash: string, ram: nat, disk: nat, now: Time, steps: nat)
      returns (ok: bool)
      requires Separate()
      modifies this`workers, cfgFile, workersFile, jobsFile
      ensures ok == Authorized(old(Abstract()).mem, workerId, tokenHash)
      ensures Abstract() ==
              After(old(Abstract()), HeartbeatEffect(old(Abstract()).mem, workerId, tokenHash, ram, disk, now), steps)
    {
      if workerId !in workers || workers[workerId].tokenHash != tokenHash {
        return false;
      }
      var w := workers[workerId];
      w := w.(node := w.node.(availableRam := ram));
      w := w.(node := w.node.(freeDisk := disk));
      w := w.(lastSeen := now);
      w := w.(status := "online");
      workers := workers[workerId := w];
      var _ := Save(steps);
      return true;
    }

    method HandleTestJob(workerId: string, jobId: string, challenge: string, steps: nat) returns (job: Option<Job>)
      requires Separate()
      modifies this`jobs, cfgFile, workersFile, jobsFile
      ensures job.Some? <==> workerId in workers
      ensures job.Some? ==> jobId in jobs && job.value == jobs[jobId]
      ensures Abstract() ==
              After(old(Abstract()), TestJobEffect(old(Abstract()).mem, workerId, jobId, challenge), steps)
    {
      if workerId !in workers {
        return None;
      }
      var j := NewJob(jobId, workerId, "test").(challenge := challenge);
      jobs := jobs[jobId := j];
      var _ := Save(steps);
      return Some(j);
    }

    /** A worker's view of the jobs: its own pending ones, in whatever order the map gives them. */
    method HandleListJobs(workerId: string, tokenHash: string) returns (listing: Option<seq<Job>>)
      requires forall id | id in jobs :: jobs[id].id == id
      ensures listing.Some? <==> Authorized(Abstract().mem, workerId, tokenHash)
      ensures listing.Some? ==>
                && (forall id | id in jobs ::
                      jobs[id] in listing.value <==> jobs[id].workerId == workerId && jobs[id].status == "pending")
                && (forall j | j in listing.value :: j.id in jobs && jobs[j.id] == j)
                && (forall a, b | 0 <= a < b < |listing.value| :: listing.value[a].id != listing.value[b].id)
    {
      if workerId !in workers || workers[workerId].tokenHash != tokenHash {
        return None;
      }
      var found := [];
      var rest := jobs.Keys;
      while rest != {}
        invariant rest <= jobs.Keys
        invariant forall id | id in jobs && id !in rest ::
            jobs[id] in found <==> jobs[id].workerId == workerId && jobs[id].status == "pending"
        invariant forall j | j in found :: j.id in jobs && j.id !in rest && jobs[j.id] == j
        invariant forall a, b | 0 <= a < b < |found| :: found[a].id != found[b].id
      {
        var id :| id in rest;
        var j := jobs[id];
        if j.workerId == workerId && j.status == "pending" {
          found := found + [j];
        }
        rest := rest - {id};
      }
      return Some(found);
    }

    method HandleCancel(jobId: string, now: Time, steps: nat) returns (job: Option<Job>)
      requires Separate()
      modifies this`jobs, cfgFile, workersFile, jobsFile
      ensures job == if jobId in jobs then Some(jobs[jobId]) else None
      ensures Abstract() == After(old(Abstract()), CancelEffect(old(Abstract()).mem, jobId, now), steps)
    {
      if jobId !in jobs {
        return None;
      }
      var j := jobs[jobId];
      j := j.(status := "cancelled");
      j := j.(endTime := Some(now));
      jobs := jobs[jobId := j];
      var _ := Save(steps);
      return Some(j);
    }

    method HandleUpdate(hash: string -> string, jobId: string, tokenHash: string, u: Update,
                        started: Time, ended: Time, steps: nat) returns (reply: UpdateReply)
      requires Separate()
      modifies this`jobs, cfgFile, workersFile, jobsFile
      ensures reply == UpdateOutcome(hash, old(Abstract()).mem, jobId, tokenHash, u, started, ended)
      ensures Abstract() ==
              After(old(Abstract()),
                    UpdateEffect(hash, old(Abstract()).mem, jobId, tokenHash, u, started, ended), steps)
    {
      if jobId !in jobs {
        return NotFound;
      }
      var job := jobs[jobId];
      if job.workerId !in workers || workers[job.workerId].tokenHash != tokenHash {
        return Unauthorized;
      }
      if job.attemptId != "" && u.attemptId != job.attemptId {
        return Conflict;
      }
      job := UpdateJob(hash, job, u, started, ended);
      jobs := jobs[jobId := job];
      var _ := Save(steps);
      return Accepted(job);
    }

    /** One pass of the liveness sweep; `clock(id)` is the reading taken when worker `id` is reached. */
    method CheckWorkerStatus(clock: string -> Time, steps: nat)
      requires Separate()
      modifies this`workers, cfgFile, workersFile, jobsFile
      ensures Abstract() == After(old(Abstract()), SweepEffect(old(Abstract()).mem, clock), steps)
    {
      var changed := false;
      var rest := workers.Keys;
      while rest != {}
        invariant rest <= old(workers).Keys && workers.Keys == old(workers).Keys
        invariant forall id | id in rest :: workers[id] == old(workers)[id]
        invariant forall id | id in workers && id !in rest :: workers[id] == Swept(old(workers), clock)[id]
        modifies this`workers
        invariant changed <==> exists id :: id in old(workers) && id !in rest && Silent(old(workers)[id], clock(id))
      {
        var id :| id in rest;
        var w := workers[id];
        if w.status == "online" && clock(id) - w.lastSeen > SILENCE_LIMIT {
          workers := workers[id := w.(status := "offline")];
          assert Silent(old(workers)[id], clock(id));
          changed := true;
        }
        rest := rest - {id};
      }
      assert workers == Swept(old(workers), clock);
      if changed {
        var _ := Save(steps);
      }
    }
  }
}
