/**
 The worker: its table of active jobs, the polling pass that launches executions, and what one
 execution posts to the coordinator. What the executed command does is an input, and so is what
 other executions and the poller do to the table whenever the worker's lock is not held.
 */
module Worker {
  import opened Common
  import opened Decimals
  import opened Coordinator
  import opened JobSteps

  /** An execution reuses the attempt ID in the listing; failing that it makes one from the clock. */
  function AttemptFor(job: Job, timestamp: nat): string {
    if job.attemptId == "" then "attempt-" + Decimal(timestamp) else job.attemptId
  }

  datatype CommandResult = CommandResult(exitCode: int, error: Option<string>, logs: seq<string>)

  /** How running an "execute" job went; `deadline` says whether its time had run out. */
  datatype Command =
    | NoProfile(error: string)
    | NoWorkspace(error: string)
    | Ran(result: CommandResult, deadline: bool)

  predicate Succeeded(r: CommandResult) {
    r.exitCode == 0 && r.error.None?
  }

  function ResultText(r: CommandResult): string {
    "ExitCode: " + Signed(r.exitCode) + match r.error case None => "" case Some(e) => ", Error: " + e
  }

  /** Executions of an unbound job get attempt IDs that tell their times apart; a bound job's ID is kept. */
  lemma AttemptIds(job: Job, a: nat, b: nat)
    ensures job.attemptId != "" ==> AttemptFor(job, a) == job.attemptId
    ensures job.attemptId == "" ==>
              && "attempt-" <= AttemptFor(job, a) && DecimalValue(AttemptFor(job, a)[8..]) == a
              && (a != b ==> AttemptFor(job, a) != AttemptFor(job, b))
  {
    DecimalReadsBack(a);
    DecimalReadsBack(b);
    if job.attemptId == "" {
      assert AttemptFor(job, a)[8..] == Decimal(a) && AttemptFor(job, b)[8..] == Decimal(b);
    }
  }

  /** A result text gives the exit code, and the error if there was one. */
  lemma ResultTextReadsBack(r: CommandResult)
    ensures "ExitCode: " <= ResultText(r)
    ensures var rest := ResultText(r)[10..];
            match r.error
            case None => SignedValue(rest) == r.exitCode
            case Some(e) => exists code :: SignedValue(code) == r.exitCode && rest == code + ", Error: " + e
  {
    SignedReadsBack(r.exitCode);
    var code, rest := Signed(r.exitCode), ResultText(r)[10..];
    match r.error
    case None =>
      assert rest == code + "" == code;
    case Some(e) =>
      assert rest == code + (", Error: " + e) == code + ", Error: " + e;
  }

  // ----- The table of active jobs -----

  /** Each entry holds the context of the execution that made it; `cancelled` are the contexts cancelled so far. */
  datatype Table = Table(entries: map<string, nat>, cancelled: set<nat>)

  function Entered(t: Table, jobId: string, ctx: nat): Table {
    t.(entries := t.entries[jobId := ctx])
  }

  /** An execution that ends removes the entry of its job, whoever made it, and cancels its own context. */
  function Left(t: Table, jobId: string, ctx: nat): Table {
    Table(t.entries - {jobId}, t.cancelled + {ctx})
  }

  function Dropped(t: Table, jobId: string): Table {
    if jobId in t.entries then Table(t.entries - {jobId}, t.cancelled + {t.entries[jobId]}) else t
  }

  datatype Change = Enter(jobId: string, ctx: nat) | Leave(jobId: string, ctx: nat) | Drop(jobId: string)

  function Changed(t: Table, c: Change): Table {
    match c
    case Enter(jobId, ctx) => Entered(t, jobId, ctx)
    case Leave(jobId, ctx) => Left(t, jobId, ctx)
    case Drop(jobId) => Dropped(t, jobId)
  }

  function AfterChanges(t: Table, cs: seq<Change>): Table
    decreases |cs|
  {
    if cs == [] then t else Changed(AfterChanges(t, cs[..|cs| - 1]), cs[|cs| - 1])
  }

  /**
   What a change does to the entry of a job and to the contexts: an execution makes an entry or removes
   whatever entry its job has, cancelling its own context; a drop cancels the context in the entry it removes.
   */
  lemma ChangeOutcome(t: Table, c: Change, other: string)
    ensures var t' := Changed(t, c);
            && (other != c.jobId ==>
                  && (other in t'.entries <==> other in t.entries)
                  && (other in t.entries ==> t'.entries[other] == t.entries[other]))
            && match c
               case Enter(id, ctx) => id in t'.entries && t'.entries[id] == ctx && t'.cancelled == t.cancelled
               case Leave(id, ctx) => id !in t'.entries && t'.cancelled == t.cancelled + {ctx}
               case Drop(id) =>
                 && id !in t'.entries
                 && forall ctx :: ctx in t'.cancelled <==>
                                  ctx in t.cancelled || (id in t.entries && ctx == t.entries[id])
  {
  }

  /** A listed cancellation reaches context `ctx` at step `k`. */
  predicate Reaches(t: Table, cs: seq<Change>, k: nat, ctx: nat)
    requires k < |cs|
  {
    var before := AfterChanges(t, cs[..k]).entries;
    cs[k].Drop? && cs[k].jobId in before && before[cs[k].jobId] == ctx
  }

  /**
   An execution still under way is cancelled exactly if a cancellation finds the entry it made; one
   whose entry was overwritten or removed by another execution of the job can no longer be cancelled.
   */
  lemma {:induction false} CancelledExactly(t: Table, cs: seq<Change>, ctx: nat)
    requires ctx !in t.cancelled && forall c | c in cs && c.Leave? :: c.ctx != ctx
    ensures ctx in AfterChanges(t, cs).cancelled <==> exists k :: 0 <= k < |cs| && Reaches(t, cs, k, ctx)
    decreases |cs|
  {
    if cs != [] {
      var n := |cs| - 1;
      CancelledExactly(t, cs[..n], ctx);
      forall k | 0 <= k < n ensures Reaches(t, cs[..n], k, ctx) <==> Reaches(t, cs, k, ctx) {
        assert cs[..n][..k] == cs[..k];
      }
      assert ctx in AfterChanges(t, cs).cancelled <==>
             ctx in AfterChanges(t, cs[..n]).cancelled || Reaches(t, cs, n, ctx);
    }
  }

  /** As long as only executions touch the table, none that is under way is ever cancelled. */
  lemma NoDropNoCancel(t: Table, cs: seq<Change>, ctx: nat)
    requires ctx !in t.cancelled && forall c | c in cs :: !c.Drop? && (c.Leave? ==> c.ctx != ctx)
    ensures ctx !in AfterChanges(t, cs).cancelled
  {
    CancelledExactly(t, cs, ctx);
  }

  // ----- A polling pass -----

  /**
   The table when the pass gets to entry `i` of the listing and when it looks at that entry: in between,
   `others[i]` happened. A listed cancellation drops the entry.
   */
  function TableAt(listing: seq<Job>, others: seq<seq<Change>>, t: Table, i: nat): Table
    requires i <= |listing| == |others|
    decreases i, 0
  {
    if i == 0 then t
    else
      var found := Found(listing, others, t, i - 1);
      if listing[i - 1].status == "cancelled" then Dropped(found, listing[i - 1].id) else found
  }

  function Found(listing: seq<Job>, others: seq<seq<Change>>, t: Table, i: nat): Table
    requires i < |listing| == |others|
    decreases i, 1
  {
    AfterChanges(TableAt(listing, others, t, i), others[i])
  }

  predicate Launches(listing: seq<Job>, others: seq<seq<Change>>, t: Table, i: nat)
    requires i < |listing| == |others|
  {
    listing[i].status == "pending" && listing[i].id !in Found(listing, others, t, i).entries
  }

  function LaunchedUpTo(listing: seq<Job>, others: seq<seq<Change>>, t: Table, i: nat): seq<Job>
    requires i <= |listing| == |others|
  {
    if i == 0 then []
    else LaunchedUpTo(listing, others, t, i - 1) + if Launches(listing, others, t, i - 1) then [listing[i - 1]] else []
  }

  function Flat(others: seq<seq<Change>>): seq<Change>
    decreases |others|
  {
    if others == [] then [] else Flat(others[..|others| - 1]) + others[|others| - 1]
  }

  lemma {:induction false} ChangesAppend(t: Table, a: seq<Change>, b: seq<Change>)
    ensures AfterChanges(t, a + b) == AfterChanges(AfterChanges(t, a), b)
    decreases |b|
  {
    if b == [] {
      assert a + b == a;
    } else {
      assert (a + b)[..|a + b| - 1] == a + b[..|b| - 1];
      ChangesAppend(t, a, b[..|b| - 1]);
    }
  }

  /**
   The coordinator lists pending jobs only, so a pass changes nothing in the table itself: the table
   is what the executions make of it, and a listed job is launched exactly if it has no entry there
   at the moment it is looked at.
   */
  lemma {:induction false} PendingListingsNeverCancel(listing: seq<Job>, others: seq<seq<Change>>, t: Table, i: nat)
    requires i <= |listing| == |others| && forall j | j in listing :: j.status == "pending"
    ensures TableAt(listing, others, t, i) == AfterChanges(t, Flat(others[..i]))
    ensures i < |listing| ==>
              (Launches(listing, others, t, i) <==> listing[i].id !in AfterChanges(t, Flat(others[..i + 1])).entries)
  {
    if i > 0 {
      PendingListingsNeverCancel(listing, others, t, i - 1);
      FlatStep(t, others, i - 1);
    }
    if i < |listing| {
      FlatStep(t, others, i);
    }
  }

  /** `picks` are the places in the listing of the jobs a pass launches. */
  ghost predicate Picked(listing: seq<Job>, others: seq<seq<Change>>, t: Table, launched: seq<Job>, picks: seq<nat>)
    requires |others| == |listing|
  {
    && |picks| == |launched|
    && (forall j, k | 0 <= j < k < |picks| :: picks[j] < picks[k])
    && (forall j | 0 <= j < |picks| :: picks[j] < |listing| && launched[j] == listing[picks[j]])
    && (forall i | 0 <= i < |listing| ::
          i in picks <==> listing[i].status == "pending" && listing[i].id !in Found(listing, others, t, i).entries)
  }

  /**
   A pass launches, in the order of the listing and once each, exactly the entries that are pending and whose
   job has no entry in the table at the moment it is looked at.
   */
  lemma {:induction false} LaunchedExactly(listing: seq<Job>, others: seq<seq<Change>>, t: Table, i: nat)
    returns (picks: seq<nat>)
    requires i <= |listing| == |others|
    ensures var launched := LaunchedUpTo(listing, others, t, i);
            && |picks| == |launched|
            && (forall j, k | 0 <= j < k < |picks| :: picks[j] < picks[k])
            && (forall j | 0 <= j < |picks| :: picks[j] < i && launched[j] == listing[picks[j]])
            && (forall k | 0 <= k < i ::
                  k in picks <==>
                    listing[k].status == "pending" && listing[k].id !in Found(listing, others, t, k).entries)
  {
    if i == 0 {
      picks := [];
    } else {
      picks := LaunchedExactly(listing, others, t, i - 1);
      if listing[i - 1].status == "pending" && listing[i - 1].id !in Found(listing, others, t, i - 1).entries {
        picks := picks + [i - 1];
      }
    }
  }

  /** After a listed cancellation its job has no entry, and the context that was in it is cancelled. */
  lemma ListedCancellation(listing: seq<Job>, others: seq<seq<Change>>, t: Table, i: nat)
    requires i < |listing| == |others|
    ensures var found, next := Found(listing, others, t, i), TableAt(listing, others, t, i + 1);
            if listing[i].status != "cancelled" then next == found
            else
              && next.entries == found.entries - {listing[i].id}
              && next.cancelled == found.cancelled +
                                   (if listing[i].id in found.entries then {found.entries[listing[i].id]} else {})
  {
  }

  lemma FlatStep(t: Table, others: seq<seq<Change>>, i: nat)
    requires i < |others|
    ensures AfterChanges(t, Flat(others[..i + 1])) == AfterChanges(AfterChanges(t, Flat(others[..i])), others[i])
  {
    assert others[..i + 1][..i] == others[..i];
    ChangesAppend(t, Flat(others[..i]), others[i]);
  }

  class Worker {
    var activeJobs: map<string, nat>
    /** The contexts whose cancel function was called. */
    var cancelled: set<nat>

    constructor ()
      ensures Abstract() == Table(map[], {})
    {
      activeJobs, cancelled := map[], {};
    }

    function Abstract(): Table
      reads this
    {
      Table(activeJobs, cancelled)
    }

    method CancelJob(jobId: string)
      modifies this
      ensures Abstract() == Dropped(old(Abstract()), jobId)
    {
      if jobId in activeJobs {
        cancelled := cancelled + {activeJobs[jobId]};
        activeJobs := activeJobs - {jobId};
      }
    }

    /** What others do to the table while the lock is free. */
    method Unlocked(changes: seq<Change>)
      modifies this
      ensures Abstract() == AfterChanges(old(Abstract()), changes)
    {
      var t := AfterChanges(Abstract(), changes);
      activeJobs, cancelled := t.entries, t.cancelled;
    }

    method PollJobs(listing: seq<Job>, others: seq<seq<Change>>) returns (launched: seq<Job>)
      requires |others| == |listing|
      modifies this
      ensures Abstract() == TableAt(listing, others, old(Abstract()), |listing|)
      ensures exists picks :: Picked(listing, others, old(Abstract()), launched, picks)
      ensures (forall j | j in listing :: j.status == "pending") ==>
                forall i | 0 <= i < |listing| ::
                  Found(listing, others, old(Abstract()), i) == AfterChanges(old(Abstract()), Flat(others[..i + 1]))
    {
      ghost var before := Abstract();
      launched := [];
      for i := 0 to |listing|
        invariant Abstract() == TableAt(listing, others, old(Abstract()), i)
        invariant launched == LaunchedUpTo(listing, others, old(Abstract()), i)
      {
        Unlocked(others[i]);
        var job := listing[i];
        if job.status == "cancelled" {
          CancelJob(job.id);
        } else if job.status == "pending" {
          var active := job.id in activeJobs;
          if !active {
            launched := launched + [job];
          }
        }
      }
      ghost var picks := LaunchedExactly(listing, others, before, |listing|);
      assert Picked(listing, others, before, launched, picks);
      if forall j | j in listing :: j.status == "pending" {
        forall i | 0 <= i < |listing|
          ensures Found(listing, others, before, i) == AfterChanges(before, Flat(others[..i + 1]))
        {
          PendingListingsNeverCancel(listing, others, before, i);
          FlatStep(before, others, i);
        }
      }
    }

    /** The posts one execution makes, in order: "running" once, then one outcome, under one attempt ID. */
    method ExecuteJob(hash: string -> string, job: Job, ctx: nat, timestamp: nat, greeting: seq<string>,
                      command: Command, meanwhile: seq<Change>)
      returns (posts: seq<Update>)
      modifies this
      ensures |posts| == 2
      ensures var running := AfterChanges(Entered(old(Abstract()), job.id, ctx), meanwhile);
              && Abstract() == Left(running, job.id, ctx)
              && (job.task == "execute" && command.Ran? ==>
                    (posts[1].status == "cancelled" <==>
                       !Succeeded(command.result) && !command.deadline && ctx in running.cancelled))
      ensures posts[0] == Update(AttemptFor(job, timestamp), "running", "", greeting)
      ensures posts[1].attemptId == AttemptFor(job, timestamp) && Final(posts[1].status)
      ensures job.task == "test" ==>
                && posts[1].status == "completed" && posts[1].result == hash(job.challenge)
                && posts[1].logs == ["Received challenge: " + job.challenge, "Calculated SHA-256: " + posts[1].result]
      ensures job.task == "execute" && command.Ran? ==>
                (posts[1].status == "completed" <==> command.result.exitCode == 0 && command.result.error.None?)
      ensures job.task == "execute" && command.Ran? ==> posts[1].result == ResultText(command.result)
      ensures job.task == "execute" && command.Ran? ==>
                posts[1].logs == command.result.logs + (if posts[1].status == "completed" then []
                                                        else if command.deadline then ["Job timed out"]
                                                        else if posts[1].status == "failed" then []
                                                        else ["Job cancelled by coordinator"])
      ensures job.task == "execute" && command.NoProfile? ==>
                posts[1].status == "failed" && posts[1].result == command.error && posts[1].logs == [command.error]
      ensures job.task == "execute" && command.NoWorkspace? ==>
                posts[1].status == "failed" && posts[1].result == "workspace error" && posts[1].logs == [command.error]
      ensures job.task !in {"test", "execute"} ==>
                && posts[1].status == "failed" && posts[1].result == "unknown task"
                && posts[1].logs == ["Unsupported task type"]
    {
      var attemptId := job.attemptId;
      if attemptId == "" {
        attemptId := "attempt-" + Decimal(timestamp);
      }
      activeJobs := activeJobs[job.id := ctx];
      posts := [Update(attemptId, "running", "", greeting)];
      Unlocked(meanwhile);
      if job.task == "test" {
        var result := hash(job.challenge);
        var logs := ["Received challenge: " + job.challenge, "Calculated SHA-256: " + result];
        posts := posts + [Update(attemptId, "completed", result, logs)];
      } else if job.task == "execute" {
        match command
        case NoProfile(error) =>
          posts := posts + [Update(attemptId, "failed", error, [error])];
        case NoWorkspace(error) =>
          posts := posts + [Update(attemptId, "failed", "workspace error", [error])];
        case Ran(r, deadline) =>
          var status, logs := "completed", r.logs;
          if r.exitCode != 0 || r.error.Some? {
            if deadline {
              status, logs := "failed", logs + ["Job timed out"];
            } else if ctx in cancelled {
              status, logs := "cancelled", logs + ["Job cancelled by coordinator"];
            } else {
              status := "failed";
            }
          }
          var text := "ExitCode: " + Signed(r.exitCode);
          if r.error.Some? {
            text := text + ", Error: " + r.error.value;
          }
          posts := posts + [Update(attemptId, status, text, logs)];
      } else {
        posts := posts + [Update(attemptId, "failed", "unknown task", ["Unsupported task type"])];
      }
      activeJobs := activeJobs - {job.id};
      cancelled := cancelled + {ctx};
    }
  }

  /**
   The challenge protocol end to end: an execution of a new test job, heard by the coordinator that
   set the challenge, leaves the job completed, verified and bound to that execution.
   */
  lemma TestJobSucceeds(hash: string -> string, job: Job, attemptId: string, greeting: seq<string>,
                        logs: seq<string>, at: Time)
    requires job.task == "test" && job.status == "pending" && job.attemptId == "" && attemptId != ""
    requires hash(job.challenge) != ""
    ensures var j := AfterSteps(hash, job, [Post(Update(attemptId, "running", "", greeting), at, at),
                                            Post(Update(attemptId, "completed", hash(job.challenge), logs), at, at)]);
            && j.status == "completed" && j.result == "success" && j.attemptId == attemptId
            && j.logs == job.logs + greeting + logs && j.startTime == Some(at) && j.endTime == Some(at)
  {
    var first := Post(Update(attemptId, "running", "", greeting), at, at);
    var second := Post(Update(attemptId, "completed", hash(job.challenge), logs), at, at);
    var running := AfterSteps(hash, job, [first]);
    assert AfterSteps(hash, job, [first][..0]) == job;
    assert running == Stepped(hash, job, first);
    assert running.attemptId == attemptId && running.status == "running" && running.logs == job.logs + greeting;
    assert [first, second][..1] == [first];
    assert AfterSteps(hash, job, [first, second]) == Stepped(hash, running, second);
  }
}
