/**
 The scheduler: one job per manifest task, on the first online worker met whose operating system
 fits. Tasks and workers are Go maps, so both loops meet their entries in an arbitrary order.
 */
module Director {
  import opened Common
  import opened Coordinator

  /** A manifest task. The RAM and core minimums are part of the manifest but are never consulted. */
  datatype Task = Task(
    minRamGb: int, os: string, minCores: int,
    profile: string, args: seq<string>, env: map<string, string>, timeoutSeconds: int)

  type Tasks = map<string, Task>

  predicate Eligible(w: Worker, task: Task) {
    w.status == "online" && (task.os == "" || w.node.os == task.os)
  }

  ghost predicate Placeable(workers: Workers, task: Task) {
    exists id :: id in workers && Eligible(workers[id], task)
  }

  function JobFor(task: Task, jobId: string, workerId: string): Job {
    NewJob(jobId, workerId, "execute").(
    profile := task.profile, args := task.args, env := task.env, timeoutSeconds := task.timeoutSeconds)
  }

  /** `added` holds one job for each of the tasks in `done`, under its own ID, on an eligible worker. */
  ghost predicate Places(added: Jobs, done: set<string>, tasks: Tasks, idFor: string -> string, workers: Workers) {
    && done <= tasks.Keys
    && added.Keys == (set name | name in done :: idFor(name))
    && forall name | name in done ::
         && added[idFor(name)].workerId in workers
         && Eligible(workers[added[idFor(name)].workerId], tasks[name])
         && added[idFor(name)] == JobFor(tasks[name], idFor(name), added[idFor(name)].workerId)
  }

  /** The random job IDs are distinct and unused. */
  ghost predicate FreshIds(idFor: string -> string, tasks: Tasks, jobs: Jobs) {
    && (forall name | name in tasks :: idFor(name) !in jobs)
    && (forall a, b | a in tasks && b in tasks && idFor(a) == idFor(b) :: a == b)
  }

  ghost predicate WorkerIdsMatch(workers: Workers) {
    forall id | id in workers :: id != "" && workers[id].id == id
  }

  lemma PlacesOneMore(added: Jobs, done: set<string>, tasks: Tasks, idFor: string -> string, workers: Workers,
                      jobs: Jobs, name: string, workerId: string)
    requires Places(added, done, tasks, idFor, workers) && FreshIds(idFor, tasks, jobs)
    requires name in tasks && name !in done && workerId in workers && Eligible(workers[workerId], tasks[name])
    ensures var added' := added[idFor(name) := JobFor(tasks[name], idFor(name), workerId)];
            Places(added', done + {name}, tasks, idFor, workers)
    ensures idFor(name) !in added
  {
    assert forall other | other in done :: idFor(other) != idFor(name);
  }

  lemma PlacedJobsAreDispatchable(added: Jobs, done: set<string>, tasks: Tasks, idFor: string -> string, m: Memory)
    requires Places(added, done, tasks, idFor, m.workers) && FreshIds(idFor, tasks, m.jobs)
    ensures Dispatchable(m, added)
  {
    forall id | id in added
      ensures && id !in m.jobs && added[id].id == id && added[id].workerId in m.workers
              && added[id].status == "pending" && added[id].attemptId == ""
    {
      var name :| name in done && id == idFor(name);
    }
  }

  /**
   The job of a placed task carries what the manifest says and nothing else: it is pending and unbound, on
   an online worker of the required operating system.
   */
  lemma PlacedTask(added: Jobs, done: set<string>, tasks: Tasks, idFor: string -> string, workers: Workers,
                   name: string)
    requires Places(added, done, tasks, idFor, workers) && name in done
    ensures var task, id := tasks[name], idFor(name);
            && id in added
            && var job := added[id];
            && job.workerId in workers && workers[job.workerId].status == "online"
            && (task.os in {"", workers[job.workerId].node.os})
            && job == Job(id, "", job.workerId, "execute", "pending", None, None, "", [],
                          task.profile, task.args, task.env, task.timeoutSeconds, "")
  {
  }

  /** A task can be placed exactly if an online worker has the operating system it asks for, if it asks for one. */
  lemma PlaceableExactly(workers: Workers, task: Task)
    ensures Placeable(workers, task) <==>
              exists id :: id in workers && workers[id].status == "online" && task.os in {"", workers[id].node.os}
  {
    if Placeable(workers, task) {
      var id :| id in workers && Eligible(workers[id], task);
      assert workers[id].status == "online";
    }
    if id :| id in workers && workers[id].status == "online" && task.os in {"", workers[id].node.os} {
      assert Eligible(workers[id], task);
    }
  }

  lemma OneJobPerTask(added: Jobs, done: set<string>, tasks: Tasks, idFor: string -> string, workers: Workers)
    requires Places(added, done, tasks, idFor, workers)
    requires forall a, b | a in done && b in done && idFor(a) == idFor(b) :: a == b
    ensures |added| == |done|
  {
    ImageSize(done, idFor);
    assert |added.Keys| == |added|;
  }

  lemma {:induction false} ImageSize(s: set<string>, f: string -> string)
    requires forall a, b | a in s && b in s && f(a) == f(b) :: a == b
    ensures |set x | x in s :: f(x)| == |s|
    decreases |s|
  {
    if s == {} {
      assert (set x | x in s :: f(x)) == {};
    } else {
      var a :| a in s;
      var rest := s - {a};
      ImageSize(rest, f);
      assert (set x | x in s :: f(x)) == (set x | x in rest :: f(x)) + {f(a)};
    }
  }

  lemma AddOneMore(jobs: Jobs, added: Jobs, id: string, job: Job)
    ensures (jobs + added)[id := job] == jobs + added[id := job]
  {
  }

  /** Placing a job on each task adds as many jobs as there are tasks. */
  lemma AllPlaced(m: Memory, added: Jobs, tasks: Tasks, idFor: string -> string)
    requires Places(added, tasks.Keys, tasks, idFor, m.workers) && FreshIds(idFor, tasks, m.jobs)
    ensures |m.jobs + added| == |m.jobs| + |tasks|
    ensures Dispatchable(m, added)
    ensures forall name | name in tasks :: Placeable(m.workers, tasks[name])
  {
    PlacedJobsAreDispatchable(added, tasks.Keys, tasks, idFor, m);
    OneJobPerTask(added, tasks.Keys, tasks, idFor, m.workers);
    assert (m.jobs + added).Keys == m.jobs.Keys + added.Keys && m.jobs.Keys !! added.Keys;
    assert |(m.jobs + added).Keys| == |m.jobs.Keys| + |added.Keys|;
    forall name | name in tasks ensures Placeable(m.workers, tasks[name]) {
      assert Eligible(m.workers[added[idFor(name)].workerId], tasks[name]);
    }
  }

  /**
   Succeeds exactly if every task has an eligible online worker, whatever order the maps come in.
   A failure is not undone: jobs already placed stay in memory, and nothing is saved.
   */
  method SubmitManifest(store: Store, tasks: Tasks, idFor: string -> string, steps: nat)
    returns (failed: Option<string>, ghost added: Jobs, ghost placed: set<string>)
    requires store.Separate() && WorkerIdsMatch(store.workers) && FreshIds(idFor, tasks, store.jobs)
    modifies store`jobs, store.cfgFile, store.workersFile, store.jobsFile
    ensures failed.None? <==> forall name | name in tasks :: Placeable(store.workers, tasks[name])
    ensures failed.Some? ==> failed.value in tasks && !Placeable(store.workers, tasks[failed.value])
    ensures Places(added, placed, tasks, idFor, store.workers) && (failed.None? ==> placed == tasks.Keys)
    ensures failed.None? ==> |store.jobs| == |old(store.jobs)| + |tasks|
    ensures Dispatchable(old(store.Abstract()).mem, added)
    ensures var m := old(store.Abstract()).mem;
            var effect := Effect(m.(jobs := m.jobs + added), failed.None?);
            && store.Abstract() == After(old(store.Abstract()), effect, steps)
            && (tasks != map[] ==> effect == DispatchEffect(m, added, failed.None?))
  {
    ghost var before := store.Abstract();
    failed, added, placed := PlaceTasks(store, tasks, idFor);
    PlacedJobsAreDispatchable(added, placed, tasks, idFor, before.mem);
    if failed.Some? {
      return;
    }
    AllPlaced(before.mem, added, tasks, idFor);
    var _ := store.Save(steps);
  }

  /** The outer loop: puts a job for each task into the job table until a task cannot be placed. */
  method PlaceTasks(store: Store, tasks: Tasks, idFor: string -> string)
    returns (failed: Option<string>, ghost added: Jobs, ghost placed: set<string>)
    requires WorkerIdsMatch(store.workers) && FreshIds(idFor, tasks, store.jobs)
    modifies store`jobs
    ensures store.jobs == old(store.jobs) + added
    ensures Places(added, placed, tasks, idFor, store.workers) && (failed.None? ==> placed == tasks.Keys)
    ensures failed.Some? ==> failed.value in tasks && !Placeable(store.workers, tasks[failed.value])
  {
    ghost var jobs, workers := store.jobs, store.workers;
    added, placed := map[], {};
    var rest := tasks.Keys;
    while rest != {}
      invariant rest <= tasks.Keys && placed == tasks.Keys - rest
      invariant store.jobs == jobs + added
      invariant Places(added, placed, tasks, idFor, workers)
      modifies store`jobs
    {
      var name :| name in rest;
      var task := tasks[name];
      var jobId := idFor(name);
      var chosen := FirstEligible(store.workers, task);
      if chosen == "" {
        return Some(name), added, placed;
      }
      var job := JobFor(task, jobId, chosen);
      AddOneMore(jobs, added, jobId, job);
      PlacesOneMore(added, placed, tasks, idFor, workers, jobs, name, chosen);
      store.jobs := store.jobs[jobId := job];
      added, placed := added[jobId := job], placed + {name};
      rest := rest - {name};
    }
    return None, added, placed;
  }

  /** The inner loop: the ID of some eligible worker, or the empty string if there is none. */
  method FirstEligible(workers: Workers, task: Task) returns (chosen: string)
    requires WorkerIdsMatch(workers)
    ensures chosen == "" <==> !Placeable(workers, task)
    ensures chosen != "" ==> chosen in workers && Eligible(workers[chosen], task)
  {
    chosen := "";
    var rest := workers.Keys;
    while rest != {}
      invariant rest <= workers.Keys && chosen == ""
      invariant forall id | id in workers && id !in rest :: !Eligible(workers[id], task)
    {
      var id :| id in rest;
      var w := workers[id];
      if w.status == "online" && (task.os == "" || w.node.os == task.os) {
        chosen := w.id;
        break;
      }
      rest := rest - {id};
    }
  }
}
