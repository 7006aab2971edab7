/**
 What a test job's status and result say about its challenge after any run of updates and cancels:
 a proof is looked at only in an update that says "completed" and carries a result.
 */
module TestJobs {
  import opened Common
  import opened Coordinator
  import opened JobSteps

  /** Step `k` is an update that took effect and carried a result. */
  predicate Speaks(hash: string -> string, job: Job, steps: seq<Step>, k: nat)
    requires k < |steps|
  {
    Effective(hash, job, steps, k) && steps[k].Post? && steps[k].update.result != ""
  }

  ghost predicate LastEffective(hash: string -> string, job: Job, steps: seq<Step>, k: nat) {
    && k < |steps| && Effective(hash, job, steps, k)
    && forall m | k < m < |steps| :: !Effective(hash, job, steps, m)
  }

  ghost predicate LastToSpeak(hash: string -> string, job: Job, steps: seq<Step>, k: nat) {
    && k < |steps| && Speaks(hash, job, steps, k)
    && forall m | k < m < |steps| :: !Speaks(hash, job, steps, m)
  }

  /** The update carries the right proof, and is looked at. */
  predicate Proves(hash: string -> string, challenge: string, u: Update) {
    u.status == "completed" && u.result != "" && u.result == hash(challenge)
  }

  /** The update completes the job without a proof. */
  predicate CompletesUnchecked(u: Update) {
    u.status == "completed" && u.result == ""
  }

  /** The update claims success without completing the job, so that nobody looks. */
  predicate Claims(u: Update) {
    u.status != "completed" && u.result == "success"
  }

  /** Dropping the last step leaves the effects of the earlier ones as they were. */
  lemma PrefixSame(hash: string -> string, job: Job, steps: seq<Step>, k: nat)
    requires k < |steps| - 1
    ensures var front := steps[..|steps| - 1];
            && front[k] == steps[k]
            && (Effective(hash, job, front, k) <==> Effective(hash, job, steps, k))
            && (Speaks(hash, job, front, k) <==> Speaks(hash, job, steps, k))
  {
    assert steps[..|steps| - 1][..k] == steps[..k];
  }

  ghost predicate CompletedBy(hash: string -> string, job: Job, steps: seq<Step>, k: nat) {
    && LastEffective(hash, job, steps, k) && steps[k].Post?
    && (Proves(hash, job.challenge, steps[k].update) || CompletesUnchecked(steps[k].update))
  }

  lemma IgnoredStepKeepsLast(hash: string -> string, job: Job, steps: seq<Step>, k: nat)
    requires steps != [] && !Effective(hash, job, steps, |steps| - 1)
    ensures CompletedBy(hash, job, steps, k) <==> CompletedBy(hash, job, steps[..|steps| - 1], k)
  {
    var front := steps[..|steps| - 1];
    forall m | 0 <= m < |front| ensures Effective(hash, job, front, m) <==> Effective(hash, job, steps, m) {
      PrefixSame(hash, job, steps, m);
    }
    assert LastEffective(hash, job, steps, k) <==> LastEffective(hash, job, front, k);
  }

  /**
   A test job ends up completed exactly if the last step that took effect is an update that says
   "completed" with the right proof or with no result at all; the two cases exclude each other, so it
   was verified exactly if that update carried a result.
   */
  lemma {:induction false} CompletedExactly(hash: string -> string, job: Job, steps: seq<Step>)
    requires job.task == "test" && job.status != "completed"
    ensures AfterSteps(hash, job, steps).status == "completed" <==> exists k :: CompletedBy(hash, job, steps, k)
    decreases |steps|
  {
    if steps != [] {
      var n := |steps| - 1;
      if Effective(hash, job, steps, n) {
        ChallengeStays(hash, job, steps[..n]);
        forall k ensures CompletedBy(hash, job, steps, k) ==> k == n {
        }
        assert AfterSteps(hash, job, steps).status == "completed" <==> CompletedBy(hash, job, steps, n);
      } else {
        CompletedExactly(hash, job, steps[..n]);
        forall k: nat ensures CompletedBy(hash, job, steps, k) <==> CompletedBy(hash, job, steps[..n], k) {
          IgnoredStepKeepsLast(hash, job, steps, k);
        }
      }
    }
  }

  ghost predicate CreditedBy(hash: string -> string, job: Job, steps: seq<Step>, k: nat) {
    && LastToSpeak(hash, job, steps, k)
    && (Proves(hash, job.challenge, steps[k].update) || Claims(steps[k].update))
  }

  lemma SilentStepKeepsCredit(hash: string -> string, job: Job, steps: seq<Step>, k: nat)
    requires steps != [] && !Speaks(hash, job, steps, |steps| - 1)
    ensures CreditedBy(hash, job, steps, k) <==> CreditedBy(hash, job, steps[..|steps| - 1], k)
  {
    var front := steps[..|steps| - 1];
    forall m | 0 <= m < |front| ensures Speaks(hash, job, front, m) <==> Speaks(hash, job, steps, m) {
      PrefixSame(hash, job, steps, m);
    }
    assert LastToSpeak(hash, job, steps, k) <==> LastToSpeak(hash, job, front, k);
  }

  /**
   Its result reads "success" exactly if the last update that carried a result proved the challenge,
   or merely claimed success under another status; what the job's status became later is no matter.
   */
  lemma {:induction false} SuccessExactly(hash: string -> string, job: Job, steps: seq<Step>)
    requires job.task == "test" && job.result != "success"
    ensures AfterSteps(hash, job, steps).result == "success" <==> exists k :: CreditedBy(hash, job, steps, k)
    decreases |steps|
  {
    if steps != [] {
      var n := |steps| - 1;
      if Speaks(hash, job, steps, n) {
        ChallengeStays(hash, job, steps[..n]);
        forall k ensures CreditedBy(hash, job, steps, k) ==> k == n {
        }
        assert AfterSteps(hash, job, steps).result == "success" <==> CreditedBy(hash, job, steps, n);
      } else {
        SuccessExactly(hash, job, steps[..n]);
        forall k: nat ensures CreditedBy(hash, job, steps, k) <==> CreditedBy(hash, job, steps[..n], k) {
          SilentStepKeepsCredit(hash, job, steps, k);
        }
      }
    }
  }

  /** Some update proved the challenge. */
  ghost predicate Verified(hash: string -> string, job: Job, steps: seq<Step>) {
    exists k :: 0 <= k < |steps| && Effective(hash, job, steps, k) && steps[k].Post?
                && Proves(hash, job.challenge, steps[k].update)
  }

  /** A job can be completed with result "success" although no update ever proved anything. */
  lemma UnverifiedSuccessHappens(hash: string -> string, job: Job, attemptId: string, at: Time)
    requires job.task == "test" && job.status == "pending" && job.attemptId == ""
    ensures var steps := [Post(Update(attemptId, "running", "success", []), at, at),
                          Post(Update(attemptId, "completed", "", []), at, at)];
            && AfterSteps(hash, job, steps).status == "completed" && AfterSteps(hash, job, steps).result == "success"
            && !Verified(hash, job, steps)
  {
    var first := Post(Update(attemptId, "running", "success", []), at, at);
    var second := Post(Update(attemptId, "completed", "", []), at, at);
    assert [first, second][..1] == [first] && [first][..0] == [];
    assert AfterSteps(hash, job, [first]) == Stepped(hash, job, first);
    assert AfterSteps(hash, job, [first, second]) == Stepped(hash, AfterSteps(hash, job, [first]), second);
  }
}
