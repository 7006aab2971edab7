/**
 Whom the coordinator's attempt fence lets through, for a job and any sequence of cancels and of updates
 from workers, which may be lost, late, out of order or duplicated.
 */
module AttemptFence {
  import opened Common
  import opened Coordinator
  import opened JobSteps

  predicate NewlyCreated(job: Job) {
    job.status == "pending" && job.attemptId == ""
  }

  /** Workers name an attempt, and say that it runs or how it ended. */
  predicate WorkerUpdate(u: Update) {
    u.attemptId != "" && (u.status == "running" || Final(u.status))
  }

  predicate FromWorkers(steps: seq<Step>) {
    forall k | 0 <= k < |steps| && steps[k].Post? :: WorkerUpdate(steps[k].update)
  }

  /** The first thing that reaches the job is a first post: it binds the job. */
  predicate BindsFirst(steps: seq<Step>) {
    steps != [] && steps[0].Post? && steps[0].update.status == "running"
  }

  /** An update of this attempt arrived. */
  predicate Arrived(steps: seq<Step>, attemptId: string) {
    exists k :: 0 <= k < |steps| && steps[k].Post? && steps[k].update.attemptId == attemptId
  }

  /** An update of this attempt was accepted. */
  predicate Heard(hash: string -> string, job: Job, steps: seq<Step>, attemptId: string) {
    exists k :: 0 <= k < |steps| && steps[k].Post? && steps[k].update.attemptId == attemptId
                && Effective(hash, job, steps, k)
  }

  ghost predicate TwoHeard(hash: string -> string, job: Job, steps: seq<Step>) {
    exists a, b :: a != b && Heard(hash, job, steps, a) && Heard(hash, job, steps, b)
  }

  ghost predicate TwoArrived(steps: seq<Step>) {
    exists a, b :: a != b && Arrived(steps, a) && Arrived(steps, b)
  }

  /** Once something has reached the job, it is bound by a first post or stays unbound for good. */
  lemma {:induction false} BoundByTheFirst(hash: string -> string, job: Job, steps: seq<Step>)
    requires NewlyCreated(job) && FromWorkers(steps) && steps != []
    ensures var j := AfterSteps(hash, job, steps);
            j.status != "pending" && j.attemptId == if BindsFirst(steps) then steps[0].update.attemptId else ""
    decreases |steps|
  {
    var front := steps[..|steps| - 1];
    if front != [] {
      BoundByTheFirst(hash, job, front);
    }
  }

  /** Everybody whose update arrives is heard, except that a binding shuts out all others. */
  lemma HeardExactly(hash: string -> string, job: Job, steps: seq<Step>, attemptId: string)
    requires NewlyCreated(job) && FromWorkers(steps)
    ensures Heard(hash, job, steps, attemptId) <==>
              Arrived(steps, attemptId) && (BindsFirst(steps) ==> attemptId == steps[0].update.attemptId)
  {
    forall k | 0 <= k < |steps| && steps[k].Post?
      ensures Effective(hash, job, steps, k) <==>
                (BindsFirst(steps) ==> steps[k].update.attemptId == steps[0].update.attemptId)
    {
      if k > 0 {
        BoundByTheFirst(hash, job, steps[..k]);
        assert steps[..k][0] == steps[0];
      }
    }
  }

  /**
   However updates are lost, delayed, reordered or repeated, two attempts of a job are both heard if and
   only if the first thing that reaches the job is not a first post, and updates of two attempts arrive.
   */
  lemma TwoHeardExactly(hash: string -> string, job: Job, steps: seq<Step>)
    requires NewlyCreated(job) && FromWorkers(steps)
    ensures TwoHeard(hash, job, steps) <==> !BindsFirst(steps) && TwoArrived(steps)
  {
    forall id ensures Heard(hash, job, steps, id) <==>
                        Arrived(steps, id) && (BindsFirst(steps) ==> id == steps[0].update.attemptId)
    {
      HeardExactly(hash, job, steps, id);
    }
  }

  /** No outcome arrives before the first post of its attempt has. */
  predicate InOrder(steps: seq<Step>) {
    forall k | 0 <= k < |steps| && steps[k].Post? && Final(steps[k].update.status) ::
      RunningBefore(steps, k, steps[k].update.attemptId)
  }

  predicate RunningBefore(steps: seq<Step>, k: nat, attemptId: string)
    requires k <= |steps|
  {
    exists m :: 0 <= m < k && steps[m].Post? && steps[m].update.attemptId == attemptId
                && steps[m].update.status == "running"
  }

  /** If every attempt's updates arrive in order, only a cancel that comes first has that effect. */
  lemma TwoHeardInOrder(hash: string -> string, job: Job, steps: seq<Step>)
    requires NewlyCreated(job) && FromWorkers(steps) && InOrder(steps)
    ensures TwoHeard(hash, job, steps) <==> steps != [] && steps[0].Cancel? && TwoArrived(steps)
  {
    TwoHeardExactly(hash, job, steps);
    if steps != [] && steps[0].Post? {
      assert !RunningBefore(steps, 0, steps[0].update.attemptId);
    }
  }

  // ----- Whether an outcome stands -----

  /** From here on the job keeps the status `job` has, or is cancelled. */
  predicate Stands(hash: string -> string, job: Job, steps: seq<Step>) {
    forall k | 0 <= k <= |steps| :: AfterSteps(hash, job, steps[..k]).status in {job.status, "cancelled"}
  }

  /** The fence lets the update through, and it would change the job's status to something else than "cancelled". */
  predicate Undoes(hash: string -> string, job: Job, u: Update) {
    !Fenced(job, u) && Updated(hash, job, u, 0, 0).status !in {job.status, "cancelled"}
  }

  /** What the fence and the proof check look at does not change any more. */
  lemma {:induction false} SettledFields(hash: string -> string, job: Job, steps: seq<Step>)
    requires Final(job.status) && FromWorkers(steps)
    ensures var j := AfterSteps(hash, job, steps);
            && j.attemptId == job.attemptId && j.task == job.task && j.challenge == job.challenge
            && j.status != "pending"
    decreases |steps|
  {
    if steps != [] {
      SettledFields(hash, job, steps[..|steps| - 1]);
    }
  }

  lemma {:induction false} StatusKept(hash: string -> string, job: Job, steps: seq<Step>)
    requires Final(job.status) && FromWorkers(steps)
    requires forall k | 0 <= k < |steps| && steps[k].Post? :: !Undoes(hash, job, steps[k].update)
    ensures AfterSteps(hash, job, steps).status in {job.status, "cancelled"}
    decreases |steps|
  {
    if steps != [] {
      var front := steps[..|steps| - 1];
      StatusKept(hash, job, front);
      SettledFields(hash, job, front);
    }
  }

  /**
   A finished job, bound or not, keeps its status or is cancelled if and only if no update arrives that the
   fence lets through and that says something else; for an unbound job that may be any attempt's.
   */
  lemma StandsExactly(hash: string -> string, job: Job, steps: seq<Step>)
    requires Final(job.status) && FromWorkers(steps)
    ensures Stands(hash, job, steps) <==>
              forall k | 0 <= k < |steps| && steps[k].Post? :: !Undoes(hash, job, steps[k].update)
  {
    if k :| 0 <= k < |steps| && steps[k].Post? && Undoes(hash, job, steps[k].update) {
      SettledFields(hash, job, steps[..k]);
      assert steps[..k + 1][..k] == steps[..k];
      assert AfterSteps(hash, job, steps[..k + 1]).status !in {job.status, "cancelled"};
    } else {
      forall k | 0 <= k <= |steps| ensures AfterSteps(hash, job, steps[..k]).status in {job.status, "cancelled"} {
        StatusKept(hash, job, steps[..k]);
      }
    }
  }

  /** A first post of this attempt arrives. */
  predicate Reopens(steps: seq<Step>, attemptId: string) {
    RunningBefore(steps, |steps|, attemptId)
  }

  /** Repetitions aside, `u` is the only outcome of its attempt to arrive. */
  predicate OnlyOutcome(steps: seq<Step>, u: Update) {
    forall k | 0 <= k < |steps| && steps[k].Post? && Final(steps[k].update.status) ::
      steps[k].update.attemptId == u.attemptId ==>
        steps[k].update.status == u.status && steps[k].update.result == u.result
  }

  /**
   Once the bound attempt's outcome has arrived, the job's status changes only by cancels if and only
   if no first post of that attempt arrives afterwards; such a straggler sets the job running again.
   */
  lemma OutcomeStandsExactly(hash: string -> string, job: Job, u: Update, started: Time, ended: Time,
                             steps: seq<Step>)
    requires job.attemptId != "" && u.attemptId == job.attemptId && Final(u.status)
    requires FromWorkers(steps) && OnlyOutcome(steps, u)
    ensures Stands(hash, Updated(hash, job, u, started, ended), steps) <==> !Reopens(steps, u.attemptId)
  {
    var settled := Updated(hash, job, u, started, ended);
    StandsExactly(hash, settled, steps);
    forall k | 0 <= k < |steps| && steps[k].Post?
      ensures Undoes(hash, settled, steps[k].update) <==>
                steps[k].update.attemptId == u.attemptId && steps[k].update.status == "running"
    {
    }
  }
}
