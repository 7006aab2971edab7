/**
 What each of the coordinator's handlers promises, in terms of the records a client can see: who is
 refused and why, which record changes and how, that nothing else does, and that a completed save lets a
 restart find it.
 */
module HandlerOutcomes {
  import opened Common
  import opened AtomicFiles
  import opened Coordinator
  import opened JobSteps

  // ----- Saving and loading -----

  /** A save replaces the configuration, then the workers, then the jobs, as far as it got. */
  lemma SaveOutcome(d: Disk, m: Memory, steps: nat)
    ensures var before, after := Recovered(d), Recovered(SavedUpTo(d, m, steps));
            && after.cfg == (if steps < 3 then before.cfg else m.cfg)
            && after.workers == (if steps < 6 then before.workers else m.workers)
            && after.jobs == (if steps < 9 then before.jobs else m.jobs)
  {
  }

  /** A restart takes each file for what it holds, and a missing or torn one for its initial value. */
  lemma LoadOutcome(d: Disk)
    ensures forall cfg :: d.cfg.published == Whole(cfg) ==> Recovered(d).cfg == cfg
    ensures forall workers :: d.workers.published == Whole(workers) ==> Recovered(d).workers == workers
    ensures forall jobs :: d.jobs.published == Whole(jobs) ==> Recovered(d).jobs == jobs
    ensures d.cfg.published in {Missing, Torn} ==> Recovered(d).cfg == Config("", 0, 0)
    ensures d.workers.published in {Missing, Torn} ==> Recovered(d).workers == map[]
    ensures d.jobs.published in {Missing, Torn} ==> Recovered(d).jobs == map[]
  {
  }

  /** A handler that changed something tried to save it, and a completed save is what a restart finds. */
  predicate SavedIfComplete(s': State, steps: nat) {
    steps >= 9 ==> Recovered(s'.disk) == s'.mem
  }

  // ----- Pairing -----

  /** A generated code is valid for five minutes and comes with a fresh failure count. */
  lemma GenerateOutcome(s: State, draw: nat, now: Time, steps: nat)
    ensures var s' := After(s, CodeGenerated(s.mem, draw, now), steps);
            && s'.mem.cfg.pairingCode == SixDigits(draw) && s'.mem.cfg.pairingExpiry == now + 300 * SECOND
            && s'.mem.cfg.pairingFailures == 0
            && s'.mem.workers == s.mem.workers && s'.mem.jobs == s.mem.jobs && SavedIfComplete(s', steps)
  {
  }

  /** Which of the four answers a pairing request gets. */
  lemma PairReplyExactly(cfg: Config, node: Node, code: string, workerId: string, now: Time)
    ensures var reply := PairOutcome(cfg, node, code, workerId, now);
            var named, closed := 1 <= |node.name| <= 64, cfg.pairingFailures >= 6;
            var right := code != "" && code == cfg.pairingCode && now <= cfg.pairingExpiry;
            && (reply == InvalidName <==> !named)
            && (reply == RateLimited <==> named && closed)
            && (reply == Refused <==> named && !closed && !right)
            && (reply == Paired(workerId) <==> named && !closed && right)
  {
  }

  /**
   A right request adds one worker with the node's description, the token and the time, and spends the
   code; a wrong one counts; one that is not evaluated changes nothing.
   */
  lemma PairOutcomeByField(s: State, node: Node, code: string, workerId: string, tokenHash: string, now: Time,
                           seen: Time, steps: nat)
    ensures var reply := PairOutcome(s.mem.cfg, node, code, workerId, now);
            var s' := After(s, PairEffect(s.mem, node, code, workerId, tokenHash, now, seen), steps);
            && s'.mem.jobs == s.mem.jobs
            && (reply in {InvalidName, RateLimited} ==> s' == s)
            && (reply == Refused ==>
                  && s'.mem.workers == s.mem.workers && SavedIfComplete(s', steps)
                  && s'.mem.cfg.pairingFailures == s.mem.cfg.pairingFailures + 1
                  && (s'.mem.cfg.pairingCode, s'.mem.cfg.pairingExpiry) ==
                     (s.mem.cfg.pairingCode, s.mem.cfg.pairingExpiry))
            && (reply.Paired? ==>
                  && s'.mem.cfg == Config("", s.mem.cfg.pairingExpiry, 0) && SavedIfComplete(s', steps)
                  && s'.mem.workers.Keys == s.mem.workers.Keys + {workerId}
                  && s'.mem.workers[workerId] == Worker(workerId, node, seen, tokenHash, "online")
                  && forall id | id in s.mem.workers && id != workerId :: s'.mem.workers[id] == s.mem.workers[id])
  {
  }

  // ----- Workers -----

  /** `w'` is `w` after a report of its free memory and disk at time `now`. */
  predicate Reported(w: Worker, ram: nat, disk: nat, now: Time, w': Worker) {
    && (w'.id, w'.tokenHash, w'.lastSeen, w'.status) == (w.id, w.tokenHash, now, "online")
    && (w'.node.availableRam, w'.node.freeDisk) == (ram, disk)
    && (w'.node.name, w'.node.os, w'.node.osVersion, w'.node.cpuModel, w'.node.architecture) ==
       (w.node.name, w.node.os, w.node.osVersion, w.node.cpuModel, w.node.architecture)
    && (w'.node.physicalCores, w'.node.logicalProcessors, w'.node.totalRam) ==
       (w.node.physicalCores, w.node.logicalProcessors, w.node.totalRam)
  }

  /** A heartbeat with a worker's own token refreshes that worker; any other changes nothing. */
  lemma HeartbeatOutcome(s: State, workerId: string, tokenHash: string, ram: nat, disk: nat, now: Time, steps: nat)
    ensures var s' := After(s, HeartbeatEffect(s.mem, workerId, tokenHash, ram, disk, now), steps);
            if workerId !in s.mem.workers || s.mem.workers[workerId].tokenHash != tokenHash then s' == s
            else
              && s'.mem.cfg == s.mem.cfg && s'.mem.jobs == s.mem.jobs && SavedIfComplete(s', steps)
              && s'.mem.workers.Keys == s.mem.workers.Keys
              && Reported(s.mem.workers[workerId], ram, disk, now, s'.mem.workers[workerId])
              && forall id | id in s.mem.workers && id != workerId :: s'.mem.workers[id] == s.mem.workers[id]
  {
  }

  /**
   A sweep takes offline exactly the online workers not heard from for more than 15 seconds when it looks
   at them, keeps everything else of them and of the others, and saves exactly if there are any.
   */
  lemma SweepOutcome(s: State, clock: string -> Time, steps: nat)
    ensures var s' := After(s, SweepEffect(s.mem, clock), steps);
            && s'.mem.cfg == s.mem.cfg && s'.mem.jobs == s.mem.jobs && s'.mem.workers.Keys == s.mem.workers.Keys
            && (forall id | id in s.mem.workers ::
                  var w, w' := s.mem.workers[id], s'.mem.workers[id];
                  && (w'.id, w'.node, w'.lastSeen, w'.tokenHash) == (w.id, w.node, w.lastSeen, w.tokenHash)
                  && w'.status ==
                     if w.status == "online" && clock(id) > w.lastSeen + 15 * SECOND then "offline" else w.status)
            && (s'.mem == s.mem ==> s'.disk == s.disk)
            && (s'.mem != s.mem ==> SavedIfComplete(s', steps))
  {
    var workers := s.mem.workers;
    if forall id | id in workers :: !Silent(workers[id], clock(id)) {
      assert Swept(workers, clock) == workers;
    } else {
      var id :| id in workers && Silent(workers[id], clock(id));
      assert Swept(workers, clock)[id].status != workers[id].status;
    }
  }

  // ----- Jobs -----

  /** A test job is created for a known worker only: pending, unbound, with its challenge and nothing else. */
  lemma TestJobOutcome(s: State, workerId: string, jobId: string, challenge: string, steps: nat)
    ensures var s' := After(s, TestJobEffect(s.mem, workerId, jobId, challenge), steps);
            if workerId !in s.mem.workers then s' == s
            else
              && s'.mem.cfg == s.mem.cfg && s'.mem.workers == s.mem.workers && SavedIfComplete(s', steps)
              && s'.mem.jobs == s.mem.jobs[jobId :=
                   Job(jobId, "", workerId, "test", "pending", None, None, "", [], "", [], map[], 0, challenge)]
  {
  }

  /** A cancel ends a known job, whatever its status was, and changes nothing else. */
  lemma CancelOutcome(s: State, jobId: string, now: Time, steps: nat)
    ensures var s' := After(s, CancelEffect(s.mem, jobId, now), steps);
            if jobId !in s.mem.jobs then s' == s
            else
              && s'.mem.cfg == s.mem.cfg && s'.mem.workers == s.mem.workers && SavedIfComplete(s', steps)
              && s'.mem.jobs.Keys == s.mem.jobs.Keys
              && s'.mem.jobs[jobId].status == "cancelled" && s'.mem.jobs[jobId].endTime == Some(now)
              && s'.mem.jobs[jobId].(status := s.mem.jobs[jobId].status, endTime := s.mem.jobs[jobId].endTime) ==
                 s.mem.jobs[jobId]
              && forall id | id in s.mem.jobs && id != jobId :: s'.mem.jobs[id] == s.mem.jobs[id]
  {
  }

  /**
   An update is refused for an unknown job, for a token that is not that of the job's worker, and for
   another attempt than the one the job is bound to, in this order; only an accepted one changes anything,
   and only its job.
   */
  lemma UpdateOutcomeExactly(hash: string -> string, s: State, jobId: string, tokenHash: string, u: Update,
                             started: Time, ended: Time, steps: nat)
    ensures var reply := UpdateOutcome(hash, s.mem, jobId, tokenHash, u, started, ended);
            var s' := After(s, UpdateEffect(hash, s.mem, jobId, tokenHash, u, started, ended), steps);
            var known := jobId in s.mem.jobs;
            var owned := known && s.mem.jobs[jobId].workerId in s.mem.workers
                         && s.mem.workers[s.mem.jobs[jobId].workerId].tokenHash == tokenHash;
            && (reply == NotFound <==> !known)
            && (reply == Unauthorized <==> known && !owned)
            && (reply == Conflict <==> owned && s.mem.jobs[jobId].attemptId !in {"", u.attemptId})
            && (reply.Accepted? <==> owned && s.mem.jobs[jobId].attemptId in {"", u.attemptId})
            && (!reply.Accepted? ==> s' == s)
            && (reply.Accepted? ==>
                  && s'.mem.cfg == s.mem.cfg && s'.mem.workers == s.mem.workers && SavedIfComplete(s', steps)
                  && s'.mem.jobs == s.mem.jobs[jobId := reply.job]
                  && reply.job == Stepped(hash, s.mem.jobs[jobId], Post(u, started, ended)))
  {
  }
}
