/**
 One job, the worker it is assigned to, and the executions that worker launches for it. The worker
 checks its table of active jobs and launches an execution without holding its lock throughout, so
 it may launch several; and it ignores whether a post arrived. Every step of the coordinator, the
 worker's poller and each execution is one event here, in any interleaving; an update that was sent
 reaches the coordinator at any later time, any number of times, or never.
 */
module JobAttempts {
  import opened Common
  import opened Coordinator
  import opened JobSteps
  import opened AttemptFence
  import opened Worker

  /** How far an execution has got; it goes on whether or not its posts have arrived. */
  datatype Stage = Launched | Registered | Started | Reported | Gone

  datatype Execution = Execution(attemptId: string, stage: Stage)

  /**
   `listed` is the copy of the job in the poller's hands, if its last poll returned one; `table` is the
   worker's, in which execution `i` has context `i`; `sent` are the updates posted so far, and
   `reached` what has reached the job.
   */
  datatype System = System(
    job: Job, listed: Option<Job>, table: Table, executions: seq<Execution>, sent: set<Update>, reached: seq<Step>)

  datatype Event =
    | Poll
    | Launch(timestamp: nat)
    | Register(i: nat)
    | PostRunning(i: nat, logs: seq<string>)
    | PostOutcome(i: nat, status: string, result: string, logs: seq<string>)
    | Leave(i: nat)
    | Reach(step: Step)

  predicate At(s: System, i: nat, stage: Stage) {
    i < |s.executions| && s.executions[i].stage == stage
  }

  function Moved(s: System, i: nat, stage: Stage): System
    requires i < |s.executions|
  {
    s.(executions := s.executions[i := s.executions[i].(stage := stage)])
  }

  predicate Enabled(s: System, e: Event) {
    match e
    case Poll => true
    case Launch(_) => s.listed.Some? && s.job.id !in s.table.entries
    case Register(i) => At(s, i, Launched)
    case PostRunning(i, _) => At(s, i, Registered)
    case PostOutcome(i, status, _, _) => At(s, i, Started) && Final(status)
    case Leave(i) => At(s, i, Reported)
    case Reach(step) => step.Post? ==> step.update in s.sent
  }

  function Apply(hash: string -> string, s: System, e: Event): System {
    if !Enabled(s, e) then s
    else match e
      case Poll => s.(listed := if s.job.status == "pending" then Some(s.job) else None)
      case Launch(timestamp) =>
        s.(listed := None,
           executions := s.executions + [Execution(AttemptFor(s.listed.value, timestamp), Launched)])
      case Register(i) => Moved(s, i, Registered).(table := Entered(s.table, s.job.id, i))
      case PostRunning(i, logs) =>
        Moved(s, i, Started).(sent := s.sent + {Update(s.executions[i].attemptId, "running", "", logs)})
      case PostOutcome(i, status, result, logs) =>
        Moved(s, i, Reported).(sent := s.sent + {Update(s.executions[i].attemptId, status, result, logs)})
      case Leave(i) => Moved(s, i, Gone).(table := Left(s.table, s.job.id, i))
      case Reach(step) => s.(job := Stepped(hash, s.job, step), reached := s.reached + [step])
  }

  function Run(hash: string -> string, s: System, es: seq<Event>): System
    decreases |es|
  {
    if es == [] then s else Run(hash, Apply(hash, s, es[0]), es[1..])
  }

  /** A job as the coordinator creates it. */
  function Start(job: Job): System {
    System(job, None, Table(map[], {}), [], {}, [])
  }

  /** Two executions launched in the same nanosecond would share an attempt ID. */
  predicate Distinct(s: System, e: Event) {
    e.Launch? && s.listed.Some? ==>
      forall k | 0 <= k < |s.executions| :: s.executions[k].attemptId != AttemptFor(s.listed.value, e.timestamp)
  }

  predicate DistinctRun(hash: string -> string, s: System, es: seq<Event>)
    decreases |es|
  {
    es == [] || (Distinct(s, es[0]) && DistinctRun(hash, Apply(hash, s, es[0]), es[1..]))
  }

  // ----- What reaches the job -----

  ghost predicate Inv(hash: string -> string, job: Job, s: System) {
    && s.job == AfterSteps(hash, job, s.reached)
    && (forall k | 0 <= k < |s.executions| :: s.executions[k].attemptId != "")
    && (forall u | u in s.sent :: WorkerUpdate(u))
    && (forall k | 0 <= k < |s.reached| && s.reached[k].Post? :: s.reached[k].update in s.sent)
  }

  lemma ApplyKeepsInv(hash: string -> string, job: Job, s: System, e: Event)
    requires Inv(hash, job, s)
    ensures Inv(hash, job, Apply(hash, s, e))
    ensures s.reached <= Apply(hash, s, e).reached
  {
    if Enabled(s, e) && e.Reach? {
      assert (s.reached + [e.step])[..|s.reached|] == s.reached;
    }
  }

  lemma {:induction false} RunKeepsInv(hash: string -> string, job: Job, s: System, es: seq<Event>)
    requires Inv(hash, job, s)
    ensures Inv(hash, job, Run(hash, s, es))
    ensures s.reached <= Run(hash, s, es).reached
    decreases |es|
  {
    if es != [] {
      ApplyKeepsInv(hash, job, s, es[0]);
      RunKeepsInv(hash, job, Apply(hash, s, es[0]), es[1..]);
    }
  }

  /**
   Over every run two attempts are both heard if and only if the first thing that reaches the job is not
   a first post, and updates of two attempts reach it; if they arrive in order, only if that is a cancel.
   */
  lemma TwoHeardInRunExactly(hash: string -> string, job: Job, es: seq<Event>)
    requires NewlyCreated(job)
    ensures var reached := Run(hash, Start(job), es).reached;
            && (TwoHeard(hash, job, reached) <==> !BindsFirst(reached) && TwoArrived(reached))
            && (InOrder(reached) ==>
                  (TwoHeard(hash, job, reached) <==> reached != [] && reached[0].Cancel? && TwoArrived(reached)))
  {
    RunKeepsInv(hash, job, Start(job), es);
    var reached := Run(hash, Start(job), es).reached;
    TwoHeardExactly(hash, job, reached);
    if InOrder(reached) {
      TwoHeardInOrder(hash, job, reached);
    }
  }

  /** Once a first post is the first thing to reach the job, its attempt is the one heard, and the only one. */
  lemma OneAttemptIsHeard(hash: string -> string, job: Job, es: seq<Event>, attemptId: string)
    requires NewlyCreated(job) && BindsFirst(Run(hash, Start(job), es).reached)
    ensures var s := Run(hash, Start(job), es);
            s.job.attemptId != "" && (Heard(hash, job, s.reached, attemptId) <==> attemptId == s.job.attemptId)
  {
    RunKeepsInv(hash, job, Start(job), es);
    var reached := Run(hash, Start(job), es).reached;
    BoundByTheFirst(hash, job, reached);
    HeardExactly(hash, job, reached, attemptId);
  }

  // ----- Outcomes -----

  predicate HasReported(x: Execution) {
    x.stage in {Reported, Gone}
  }

  /** Some execution has this attempt ID, and has reported if it must have. */
  predicate HasSender(xs: seq<Execution>, attemptId: string, reported: bool) {
    exists k :: 0 <= k < |xs| && xs[k].attemptId == attemptId && (reported ==> HasReported(xs[k]))
  }

  ghost predicate DistinctIds(xs: seq<Execution>) {
    forall j, k | 0 <= j < |xs| && 0 <= k < |xs| && xs[j].attemptId == xs[k].attemptId :: j == k
  }

  /** Every execution has sent what its stage says, and one outcome at most. */
  ghost predicate OneOutcomeEach(s: System) {
    && DistinctIds(s.executions)
    && (forall u | u in s.sent :: HasSender(s.executions, u.attemptId, Final(u.status)))
    && (forall u, v | u in s.sent && v in s.sent && Final(u.status) && Final(v.status) && u.attemptId == v.attemptId ::
          u == v)
  }

  /** An execution that moves along keeps its ID, and goes on having reported. */
  lemma SenderMoves(xs: seq<Execution>, i: nat, x: Execution, attemptId: string, reported: bool)
    requires i < |xs| && x.attemptId == xs[i].attemptId && (HasReported(xs[i]) ==> HasReported(x))
    requires HasSender(xs, attemptId, reported)
    ensures HasSender(xs[i := x], attemptId, reported)
  {
    var k :| 0 <= k < |xs| && xs[k].attemptId == attemptId && (reported ==> HasReported(xs[k]));
    assert xs[i := x][k].attemptId == attemptId;
  }

  lemma MoveKeepsOutcomes(hash: string -> string, s: System, e: Event, i: nat, x: Execution)
    requires OneOutcomeEach(s) && Enabled(s, e) && !e.Launch? && i < |s.executions|
    requires x.attemptId == s.executions[i].attemptId && (HasReported(s.executions[i]) ==> HasReported(x))
    requires Apply(hash, s, e).executions == s.executions[i := x]
    requires forall u | u in Apply(hash, s, e).sent - s.sent ::
               u.attemptId == x.attemptId && (Final(u.status) ==> HasReported(x) && !HasReported(s.executions[i]))
    requires forall u, v | u in Apply(hash, s, e).sent - s.sent && v in Apply(hash, s, e).sent - s.sent :: u == v
    requires s.sent <= Apply(hash, s, e).sent
    ensures OneOutcomeEach(Apply(hash, s, e))
  {
    var s' := Apply(hash, s, e);
    forall u | u in s'.sent ensures HasSender(s'.executions, u.attemptId, Final(u.status)) {
      if u in s.sent {
        SenderMoves(s.executions, i, x, u.attemptId, Final(u.status));
      } else {
        assert s'.executions[i] == x;
      }
    }
    forall u | u in s.sent && Final(u.status) && u.attemptId == x.attemptId ensures HasReported(s.executions[i]) {
      assert HasSender(s.executions, u.attemptId, true);
    }
  }

  lemma LaunchKeepsOutcomes(hash: string -> string, s: System, e: Event)
    requires OneOutcomeEach(s) && Enabled(s, e) && e.Launch? && Distinct(s, e)
    ensures OneOutcomeEach(Apply(hash, s, e))
  {
    var s' := Apply(hash, s, e);
    assert forall k | 0 <= k < |s.executions| :: s'.executions[k] == s.executions[k];
    forall u | u in s'.sent ensures HasSender(s'.executions, u.attemptId, Final(u.status)) {
      var k :| 0 <= k < |s.executions| && s.executions[k].attemptId == u.attemptId
               && (Final(u.status) ==> HasReported(s.executions[k]));
      assert s'.executions[k] == s.executions[k];
    }
  }

  lemma ApplyKeepsOutcomes(hash: string -> string, s: System, e: Event)
    requires OneOutcomeEach(s) && Distinct(s, e)
    ensures OneOutcomeEach(Apply(hash, s, e))
  {
    if Enabled(s, e) {
      match e
      case Launch(_) => LaunchKeepsOutcomes(hash, s, e);
      case Register(i) => MoveKeepsOutcomes(hash, s, e, i, s.executions[i].(stage := Registered));
      case PostRunning(i, _) => MoveKeepsOutcomes(hash, s, e, i, s.executions[i].(stage := Started));
      case PostOutcome(i, _, _, _) => MoveKeepsOutcomes(hash, s, e, i, s.executions[i].(stage := Reported));
      case Leave(i) => MoveKeepsOutcomes(hash, s, e, i, s.executions[i].(stage := Gone));
      case _ =>
    }
  }

  lemma {:induction false} RunKeepsOutcomes(hash: string -> string, s: System, es: seq<Event>)
    requires OneOutcomeEach(s) && DistinctRun(hash, s, es)
    ensures OneOutcomeEach(Run(hash, s, es))
    ensures s.sent <= Run(hash, s, es).sent
    decreases |es|
  {
    if es != [] {
      ApplyKeepsOutcomes(hash, s, es[0]);
      RunKeepsOutcomes(hash, Apply(hash, s, es[0]), es[1..]);
    }
  }

  /** What reaches the job from state `s` on. */
  function ReachedSince(hash: string -> string, s: System, es: seq<Event>): seq<Step>
    requires |s.reached| <= |Run(hash, s, es).reached|
  {
    Run(hash, s, es).reached[|s.reached|..]
  }

  lemma LaterSteps(hash: string -> string, job: Job, s: System, es: seq<Event>)
    requires Inv(hash, job, s)
    ensures s.reached <= Run(hash, s, es).reached && FromWorkers(ReachedSince(hash, s, es))
    ensures Run(hash, s, es).job == AfterSteps(hash, s.job, ReachedSince(hash, s, es))
    ensures forall k | 0 <= k < |ReachedSince(hash, s, es)| && ReachedSince(hash, s, es)[k].Post? ::
              ReachedSince(hash, s, es)[k].update in Run(hash, s, es).sent
  {
    RunKeepsInv(hash, job, s, es);
    var later, since := Run(hash, s, es), ReachedSince(hash, s, es);
    assert later.reached == s.reached + since;
    StepsConcat(hash, job, s.reached, since);
    forall k | 0 <= k < |since| && since[k].Post? ensures since[k].update in later.sent {
      assert since[k] == later.reached[|s.reached| + k];
    }
  }

  /**
   Over every run a finished job, bound or not, changes its status only by cancels if and only if no update
   reaches it that the fence lets through and that says something else.
   */
  lemma FinishedStandsInRunExactly(hash: string -> string, job: Job, s: System, es: seq<Event>)
    requires Inv(hash, job, s) && Final(s.job.status)
    ensures s.reached <= Run(hash, s, es).reached
    ensures var since := ReachedSince(hash, s, es);
            && Run(hash, s, es).job == AfterSteps(hash, s.job, since)
            && (Stands(hash, s.job, since) <==>
                  forall k | 0 <= k < |since| && since[k].Post? :: !Undoes(hash, s.job, since[k].update))
  {
    LaterSteps(hash, job, s, es);
    StandsExactly(hash, s.job, ReachedSince(hash, s, es));
  }

  /**
   After the outcome of the attempt the job is bound to has arrived, its status changes only by cancels if
   and only if no first post of that attempt arrives later, however other executions interfere.
   */
  lemma OutcomeStandsInRunExactly(hash: string -> string, job: Job, s: System, arrival: Step, es: seq<Event>)
    requires Inv(hash, job, s) && OneOutcomeEach(s)
    requires arrival.Post? && arrival.update in s.sent && Final(arrival.update.status)
    requires s.job.attemptId == arrival.update.attemptId
    requires DistinctRun(hash, Apply(hash, s, Reach(arrival)), es)
    ensures var t := Apply(hash, s, Reach(arrival));
            && t.reached <= Run(hash, t, es).reached
            && Run(hash, t, es).job == AfterSteps(hash, t.job, ReachedSince(hash, t, es))
            && (Stands(hash, t.job, ReachedSince(hash, t, es)) <==>
                  !Reopens(ReachedSince(hash, t, es), arrival.update.attemptId))
  {
    var t := Apply(hash, s, Reach(arrival));
    ApplyKeepsInv(hash, job, s, Reach(arrival));
    ApplyKeepsOutcomes(hash, s, Reach(arrival));
    LaterSteps(hash, job, t, es);
    RunKeepsOutcomes(hash, t, es);
    OutcomeStandsExactly(hash, s.job, arrival.update, arrival.started, arrival.ended, ReachedSince(hash, t, es));
  }

  /** Both invariants hold in every state a run with distinct attempt IDs reaches. */
  lemma ReachableStatesAreSound(hash: string -> string, job: Job, es: seq<Event>)
    requires DistinctRun(hash, Start(job), es)
    ensures Inv(hash, job, Run(hash, Start(job), es)) && OneOutcomeEach(Run(hash, Start(job), es))
  {
    RunKeepsInv(hash, job, Start(job), es);
    RunKeepsOutcomes(hash, Start(job), es);
  }

  // ----- Runs in which the fence lets two attempts through -----

  /** The worker has launched two executions of the job, and neither has entered the table yet. */
  function TwiceLaunched(job: Job): System {
    Start(job).(executions := [Execution(AttemptFor(job, 1), Launched), Execution(AttemptFor(job, 2), Launched)])
  }

  lemma RunStep(hash: string -> string, s: System, e: Event, es: seq<Event>)
    ensures Run(hash, s, [e] + es) == Run(hash, Apply(hash, s, e), es)
  {
    assert ([e] + es)[1..] == es;
  }

  lemma {:induction false} RunConcat(hash: string -> string, s: System, a: seq<Event>, b: seq<Event>)
    ensures Run(hash, s, a + b) == Run(hash, Run(hash, s, a), b)
    decreases |a|
  {
    if a == [] {
      assert a + b == b;
    } else {
      assert (a + b)[1..] == a[1..] + b;
      RunConcat(hash, Apply(hash, s, a[0]), a[1..], b);
    }
  }

  /** The worker's table does not prevent a second execution of the same job. */
  lemma SecondExecutionHappens(hash: string -> string, job: Job)
    requires NewlyCreated(job)
    ensures Run(hash, Start(job), [Poll, Launch(1), Poll, Launch(2)]) == TwiceLaunched(job)
    ensures AttemptFor(job, 1) != AttemptFor(job, 2)
  {
    var s1 := Apply(hash, Start(job), Poll);
    var s2 := Apply(hash, s1, Launch(1));
    var s3 := Apply(hash, s2, Poll);
    assert AttemptFor(job, 1)[8] != AttemptFor(job, 2)[8];
    assert Apply(hash, s3, Launch(2)) == TwiceLaunched(job);
    assert [Poll, Launch(1), Poll, Launch(2)] == [Poll] + ([Launch(1)] + ([Poll] + ([Launch(2)] + [])));
    RunStep(hash, Start(job), Poll, [Launch(1)] + ([Poll] + ([Launch(2)] + [])));
    RunStep(hash, s1, Launch(1), [Poll] + ([Launch(2)] + []));
    RunStep(hash, s2, Poll, [Launch(2)] + []);
    RunStep(hash, s3, Launch(2), []);
  }

  /** From there both executions post; the first one goes on to report its outcome. */
  lemma BothPost(hash: string -> string, job: Job, result: string)
    requires NewlyCreated(job)
    ensures var es := [Register(0), Register(1), PostRunning(0, []), PostRunning(1, []),
                       PostOutcome(0, "completed", result, [])];
            var s := Run(hash, TwiceLaunched(job), es);
            && s.reached == [] && s.job == job
            && s.sent == {Update(AttemptFor(job, 1), "running", "", []), Update(AttemptFor(job, 2), "running", "", []),
                          Update(AttemptFor(job, 1), "completed", result, [])}
  {
    var e0, e1, e2, e3 := Register(0), Register(1), PostRunning(0, []), PostRunning(1, []);
    var e4 := PostOutcome(0, "completed", result, []);
    var s0 := TwiceLaunched(job);
    var s1 := Apply(hash, s0, e0);
    var s2 := Apply(hash, s1, e1);
    var s3 := Apply(hash, s2, e2);
    var s4 := Apply(hash, s3, e3);
    assert [e0, e1, e2, e3, e4] == [e0] + ([e1] + ([e2] + ([e3] + ([e4] + []))));
    RunStep(hash, s0, e0, [e1] + ([e2] + ([e3] + ([e4] + []))));
    RunStep(hash, s1, e1, [e2] + ([e3] + ([e4] + [])));
    RunStep(hash, s2, e2, [e3] + ([e4] + []));
    RunStep(hash, s3, e3, [e4] + []);
    RunStep(hash, s4, e4, []);
  }

  function Reaches(steps: seq<Step>): seq<Event> {
    if steps == [] then [] else [Reach(steps[0])] + Reaches(steps[1..])
  }

  /** Cancels and updates that were sent may reach the job in any order. */
  lemma {:induction false} AnyOrder(hash: string -> string, s: System, steps: seq<Step>)
    requires forall k | 0 <= k < |steps| :: Enabled(s, Reach(steps[k]))
    ensures Run(hash, s, Reaches(steps)).reached == s.reached + steps
    decreases |steps|
  {
    if steps != [] {
      var s' := Apply(hash, s, Reach(steps[0]));
      RunStep(hash, s, Reach(steps[0]), Reaches(steps[1..]));
      AnyOrder(hash, s', steps[1..]);
      assert s.reached + [steps[0]] + steps[1..] == s.reached + steps;
    }
  }

  ghost predicate CanReach(hash: string -> string, job: Job, steps: seq<Step>) {
    exists es :: Run(hash, Start(job), es).reached == steps
  }

  lemma AnyOrderCanReach(hash: string -> string, job: Job, result: string, steps: seq<Step>)
    requires NewlyCreated(job)
    requires forall k | 0 <= k < |steps| && steps[k].Post? :: steps[k].update in
               {Update(AttemptFor(job, 1), "running", "", []), Update(AttemptFor(job, 2), "running", "", []),
                Update(AttemptFor(job, 1), "completed", result, [])}
    ensures CanReach(hash, job, steps)
  {
    var launches := [Poll, Launch(1), Poll, Launch(2)];
    var posts := [Register(0), Register(1), PostRunning(0, []), PostRunning(1, []),
                  PostOutcome(0, "completed", result, [])];
    SecondExecutionHappens(hash, job);
    BothPost(hash, job, result);
    RunConcat(hash, Start(job), launches, posts);
    RunConcat(hash, Start(job), launches + posts, Reaches(steps));
    AnyOrder(hash, Run(hash, Start(job), launches + posts), steps);
  }

  /** The first post of one execution is lost: its outcome and the other's first post are both accepted. */
  lemma TwoHeardAfterLostPost(hash: string -> string, job: Job, result: string, at: Time)
    requires NewlyCreated(job)
    ensures var steps := [Post(Update(AttemptFor(job, 1), "completed", result, []), at, at),
                          Post(Update(AttemptFor(job, 2), "running", "", []), at, at)];
            CanReach(hash, job, steps) && TwoHeard(hash, job, steps)
  {
    var steps := [Post(Update(AttemptFor(job, 1), "completed", result, []), at, at),
                  Post(Update(AttemptFor(job, 2), "running", "", []), at, at)];
    AnyOrderCanReach(hash, job, result, steps);
    SecondExecutionHappens(hash, job);
    assert Arrived(steps, steps[0].update.attemptId) && Arrived(steps, steps[1].update.attemptId);
    TwoHeardExactly(hash, job, steps);
  }

  /** A first post that arrives after its own execution's outcome sets the finished job running again. */
  lemma LateFirstPostReopens(hash: string -> string, job: Job, result: string, at: Time)
    requires NewlyCreated(job)
    ensures var outcome := Post(Update(AttemptFor(job, 1), "completed", result, []), at, at);
            var first := Post(Update(AttemptFor(job, 1), "running", "", []), at, at);
            && CanReach(hash, job, [outcome, first])
            && Final(AfterSteps(hash, job, [outcome]).status)
            && AfterSteps(hash, job, [outcome, first]).status == "running"
  {
    var outcome := Post(Update(AttemptFor(job, 1), "completed", result, []), at, at);
    var first := Post(Update(AttemptFor(job, 1), "running", "", []), at, at);
    AnyOrderCanReach(hash, job, result, [outcome, first]);
    assert [outcome, first][..1] == [outcome] && [outcome][..0] == [];
    assert AfterSteps(hash, job, [outcome]) == Stepped(hash, job, outcome);
    assert AfterSteps(hash, job, [outcome, first]) == Stepped(hash, AfterSteps(hash, job, [outcome]), first);
  }

  /** Nothing is lost and all is in order, but the job was cancelled before anybody posted. */
  lemma TwoHeardAfterCancel(hash: string -> string, job: Job, at: Time)
    requires NewlyCreated(job)
    ensures var steps := [Cancel(at), Post(Update(AttemptFor(job, 1), "running", "", []), at, at),
                          Post(Update(AttemptFor(job, 2), "running", "", []), at, at)];
            CanReach(hash, job, steps) && TwoHeard(hash, job, steps)
  {
    var steps := [Cancel(at), Post(Update(AttemptFor(job, 1), "running", "", []), at, at),
                  Post(Update(AttemptFor(job, 2), "running", "", []), at, at)];
    AnyOrderCanReach(hash, job, "", steps);
    SecondExecutionHappens(hash, job);
    assert Arrived(steps, steps[1].update.attemptId) && Arrived(steps, steps[2].update.attemptId);
    TwoHeardExactly(hash, job, steps);
  }
}
