/**
 One job under any sequence of things that reach the coordinator about it: updates, in whatever order
 and however often they arrive, and cancels. An update the worker's token does not authorize changes
 nothing and is left out.
 */
module JobSteps {
  import opened Common
  import opened Coordinator

  datatype Step = Post(update: Update, started: Time, ended: Time) | Cancel(at: Time)

  /** An update that fails the attempt fence leaves the job alone. */
  predicate Ignored(job: Job, step: Step) {
    step.Post? && Fenced(job, step.update)
  }

  function Stepped(hash: string -> string, job: Job, step: Step): Job {
    if Ignored(job, step) then job
    else match step
      case Post(u, started, ended) => Updated(hash, job, u, started, ended)
      case Cancel(at) => Cancelled(job, at)
  }

  function AfterSteps(hash: string -> string, job: Job, steps: seq<Step>): Job
    decreases |steps|
  {
    if steps == [] then job
    else Stepped(hash, AfterSteps(hash, job, steps[..|steps| - 1]), steps[|steps| - 1])
  }

  /** Step `k` took effect. */
  predicate Effective(hash: string -> string, job: Job, steps: seq<Step>, k: nat)
    requires k < |steps|
  {
    !Ignored(AfterSteps(hash, job, steps[..k]), steps[k])
  }

  lemma {:induction false} ChallengeStays(hash: string -> string, job: Job, steps: seq<Step>)
    ensures AfterSteps(hash, job, steps).task == job.task && AfterSteps(hash, job, steps).challenge == job.challenge
    decreases |steps|
  {
    if steps != [] {
      ChallengeStays(hash, job, steps[..|steps| - 1]);
    }
  }

  lemma {:induction false} StepsConcat(hash: string -> string, job: Job, a: seq<Step>, b: seq<Step>)
    ensures AfterSteps(hash, job, a + b) == AfterSteps(hash, AfterSteps(hash, job, a), b)
    decreases |b|
  {
    if b == [] {
      assert a + b == a;
    } else {
      assert (a + b)[..|a + b| - 1] == a + b[..|b| - 1];
      StepsConcat(hash, job, a, b[..|b| - 1]);
    }
  }

  // ----- What a job's record says -----

  /** A "completed" update of a test job whose proof is there and wrong. */
  predicate WrongProof(hash: string -> string, job: Job, u: Update) {
    job.task == "test" && u.status == "completed" && u.result != "" && u.result != hash(job.challenge)
  }

  /** A "completed" update of a test job with the right proof. */
  predicate RightProof(hash: string -> string, job: Job, u: Update) {
    job.task == "test" && u.status == "completed" && u.result != "" && u.result == hash(job.challenge)
  }

  /**
   One update, field by field: an update of another attempt than the one a job is bound to changes nothing;
   any other sets the status it names, starts a pending job, ends a job it finishes, and adds to the logs.
   */
  lemma UpdateOutcomeByField(hash: string -> string, job: Job, u: Update, started: Time, ended: Time)
    ensures var j := Stepped(hash, job, Post(u, started, ended));
            var wrong := WrongProof(hash, job, u);
            if job.attemptId !in {"", u.attemptId} then j == job
            else
              && j.status == (if wrong then "failed" else u.status)
              && j.result == (if wrong then "challenge verification failed"
                              else if RightProof(hash, job, u) then "success"
                              else if u.result == "" then job.result else u.result)
              && j.logs == job.logs + (if wrong then ["ERROR: Coordinator rejected challenge result"] else []) + u.logs
              && j.startTime == (if (job.status, u.status) == ("pending", "running") then Some(started)
                                 else job.startTime)
              && j.endTime == (if u.status in {"completed", "failed", "cancelled"} then Some(ended) else job.endTime)
              && j.attemptId == (if (job.status, u.status) == ("pending", "running") then u.attemptId
                                 else job.attemptId)
              && (j.id, j.workerId, j.task, j.challenge) == (job.id, job.workerId, job.task, job.challenge)
              && (j.profile, j.args, j.env, j.timeoutSeconds) == (job.profile, job.args, job.env, job.timeoutSeconds)
  {
  }

  /** A cancel ends the job whatever it was, and leaves everything but its status and end time. */
  lemma CancelOutcomeByField(hash: string -> string, job: Job, at: Time)
    ensures var j := Stepped(hash, job, Cancel(at));
            && j.status == "cancelled" && j.endTime == Some(at)
            && j.(status := job.status, endTime := job.endTime) == job
  {
  }

  /** The last step that took effect. */
  function Latest(hash: string -> string, job: Job, steps: seq<Step>): Option<Step>
    decreases |steps|
  {
    if steps == [] then None
    else if Effective(hash, job, steps, |steps| - 1) then Some(steps[|steps| - 1])
    else Latest(hash, job, steps[..|steps| - 1])
  }

  /** The last update that took effect and carried a result. */
  function LatestResult(hash: string -> string, job: Job, steps: seq<Step>): Option<Update>
    decreases |steps|
  {
    if steps == [] then None
    else
      var last := steps[|steps| - 1];
      if Effective(hash, job, steps, |steps| - 1) && last.Post? && last.update.result != "" then Some(last.update)
      else LatestResult(hash, job, steps[..|steps| - 1])
  }

  /** What the updates that took effect have logged, with a note before the logs of one with a wrong proof. */
  function AllLogs(hash: string -> string, job: Job, steps: seq<Step>): seq<string>
    decreases |steps|
  {
    if steps == [] then []
    else
      var last, before := steps[|steps| - 1], AllLogs(hash, job, steps[..|steps| - 1]);
      if !Effective(hash, job, steps, |steps| - 1) || last.Cancel? then before
      else if WrongProof(hash, job, last.update) then before + [REJECTED] + last.update.logs
      else before + last.update.logs
  }

  /**
   Whatever the task, over any sequence of steps: the status is what the last step that took effect says,
   except that a wrong proof makes it "failed".
   */
  lemma {:induction false} StatusIsTheLatest(hash: string -> string, job: Job, steps: seq<Step>)
    ensures AfterSteps(hash, job, steps).status ==
            match Latest(hash, job, steps)
            case None => job.status
            case Some(Cancel(_)) => "cancelled"
            case Some(Post(u, _, _)) => if WrongProof(hash, job, u) then "failed" else u.status
    decreases |steps|
  {
    if steps != [] {
      StatusIsTheLatest(hash, job, steps[..|steps| - 1]);
      ChallengeStays(hash, job, steps[..|steps| - 1]);
    }
  }

  /** The result is the last one any step that took effect carried, except where a proof was looked at. */
  lemma {:induction false} ResultIsTheLatest(hash: string -> string, job: Job, steps: seq<Step>)
    ensures AfterSteps(hash, job, steps).result ==
            match LatestResult(hash, job, steps)
            case None => job.result
            case Some(u) =>
              if WrongProof(hash, job, u) then "challenge verification failed"
              else if RightProof(hash, job, u) then "success"
              else u.result
    decreases |steps|
  {
    if steps != [] {
      ResultIsTheLatest(hash, job, steps[..|steps| - 1]);
      ChallengeStays(hash, job, steps[..|steps| - 1]);
    }
  }

  /** No log line is lost, repeated or reordered. */
  lemma {:induction false} LogsAreAll(hash: string -> string, job: Job, steps: seq<Step>)
    ensures AfterSteps(hash, job, steps).logs == job.logs + AllLogs(hash, job, steps)
    decreases |steps|
  {
    if steps != [] {
      LogsAreAll(hash, job, steps[..|steps| - 1]);
      ChallengeStays(hash, job, steps[..|steps| - 1]);
    }
  }
}
