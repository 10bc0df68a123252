/** The jobs as the objects they are in the running program: every `TimerJob`
    is a record in one table, updated in place; a reference to a job is its
    index in the table. The table also keeps the trace of payload ids run. */
module JobStores {
  import opened Utils
  import opened TimerJobs
  import opened GroupTasks
  import opened IntervalTasks

  /** The virtual `Execute` of job `h`, dispatched on its class. `TimerJob` and
      `GroupTask` never ask to be queued again. */
  function ExecuteJob(h: nat, now: int, conds: nat -> bool, w: World): (r: Step)
    requires h < |w.jobs|
    ensures StepFrame(h, now, w, r)
  {
    match w.jobs[h].kind
    case Plain(_) =>
      var o := ExecutePlain(w.jobs[h], w);
      Step(o.world, false, o.threw)
    case Group(_) =>
      var o := ExecuteGroup(w.jobs[h], w);
      Step(o.world, false, o.threw)
    case Interval(_, _, _, _) => ExecuteInterval(h, now, conds, w)
  }

  /** The classes share one `Execute` slot: a plain job runs its action, a
      group its tasks, an interval task its own `Execute`. Only an interval
      task can ask to be queued again. */
  lemma ExecuteJobCases(h: nat, now: int, conds: nat -> bool, w: World)
    requires h < |w.jobs|
    ensures var r := ExecuteJob(h, now, conds, w);
            && (w.jobs[h].kind.Plain? ==> r == Step(ExecutePlain(w.jobs[h], w).world, false, ExecutePlain(w.jobs[h], w).threw))
            && (w.jobs[h].kind.Group? ==> r == Step(ExecuteGroup(w.jobs[h], w).world, false, ExecuteGroup(w.jobs[h], w).threw))
            && (w.jobs[h].kind.Interval? ==> r == ExecuteInterval(h, now, conds, w))
            && (r.repush ==> w.jobs[h].kind.Interval?)
  {
  }

  /** A deactivated job runs nothing of its own: a plain or group job leaves the
      world as it is, an interval job runs only its end task. */
  lemma DeactivatedJobRunsNothing(h: nat, now: int, conds: nat -> bool, w: World)
    requires h < |w.jobs| && w.jobs[h].deactivated
    ensures var r := ExecuteJob(h, now, conds, w);
            !r.repush && (!w.jobs[h].kind.Interval? ==> r == Step(w, false, false))
  {
  }

  /** Two tables that agree on every due time and every class, so that a queue
      mirroring the due times of one mirrors those of the other. */
  ghost predicate SameSchedule(jobs: seq<Job>, jobs': seq<Job>)
  {
    && |jobs'| == |jobs|
    && forall k :: 0 <= k < |jobs| ==>
         && jobs'[k].ticks == jobs[k].ticks
         && jobs'[k].kind.Interval? == jobs[k].kind.Interval?
         && (jobs[k].kind.Interval? ==> jobs'[k].kind == jobs[k].kind)
  }

  class JobStore {
    var jobs: seq<Job>
    var trace: seq<nat>

    function State(): (w: World)
      reads this
      ensures w.jobs == jobs && w.trace == trace
    {
      World(jobs, trace)
    }

    constructor ()
      ensures jobs == [] && trace == []
    {
      jobs := [];
      trace := [];
    }

    /** `new TimerJob(...)` (or one of its subclasses): a fresh reference. */
    method Add(j: Job) returns (h: nat)
      modifies this
      ensures h == old(|jobs|) && jobs == old(jobs) + [j] && trace == old(trace)
    {
      h := |jobs|;
      jobs := jobs + [j];
    }

    /** `TimerJob.MarkDisposed` on job `h`. */
    method MarkDisposed(h: nat)
      requires h < |jobs|
      modifies this
      ensures jobs == old(jobs)[h := TimerJobs.MarkDisposed(old(jobs[h]))] && trace == old(trace)
      ensures SameSchedule(old(jobs), jobs)
    {
      jobs := jobs[h := TimerJobs.MarkDisposed(jobs[h])];
    }

    /** `TimerJob.Dispose` on job `h`: the same effect as marking it. */
    method Dispose(h: nat)
      requires h < |jobs|
      modifies this
      ensures State() == DisposeAt(old(State()), h)
      ensures SameSchedule(old(jobs), jobs)
    {
      MarkDisposed(h);
    }

    /** `Utils.DisposeNullChk`: a null reference is ignored. */
    method DisposeNullChk(h: Option<nat>)
      requires h.Some? ==> h.value < |jobs|
      modifies this
      ensures State() == TimerJobs.DisposeNullChk(h, old(State()))
      ensures SameSchedule(old(jobs), jobs)
    {
      if h.Some? {
        Dispose(h.value);
      }
    }

    /** `GroupTask.AddTask` on group job `h`. */
    method AddTask(h: nat, newTask: Action)
      requires h < |jobs| && jobs[h].kind.Group?
      modifies this
      ensures jobs == old(jobs)[h := old(jobs[h]).(kind := Group(GroupTasks.AddTask(old(jobs[h].kind.tasks), newTask)))]
      ensures trace == old(trace) && SameSchedule(old(jobs), jobs)
    {
      jobs := jobs[h := jobs[h].(kind := Group(jobs[h].kind.tasks + [newTask]))];
    }

    /** `GroupTask.RemoveTask` on group job `h`. */
    method RemoveTask(h: nat, targetTask: Action)
      requires h < |jobs| && jobs[h].kind.Group?
      modifies this
      ensures jobs == old(jobs)[h := old(jobs[h]).(kind := Group(GroupTasks.RemoveTask(old(jobs[h].kind.tasks), targetTask)))]
      ensures trace == old(trace) && SameSchedule(old(jobs), jobs)
    {
      jobs := jobs[h := jobs[h].(kind := Group(GroupTasks.RemoveTask(jobs[h].kind.tasks, targetTask)))];
    }

    /** `Utils.Execute(Action)`: invokes a non-null delegate; `threw` reports
        an exception escaping from it. */
    method Invoke(a: Action) returns (threw: bool)
      modifies this
      ensures Outcome(State(), threw) == TimerJobs.Invoke(a, old(State()))
    {
      threw := false;
      match a
      case Null =>
      case Run(id, throws) =>
        trace := trace + [id];
        threw := throws;
      case DisposeJob(target) =>
        if target < |jobs| {
          MarkDisposed(target);
        }
    }

    /** `GroupTask.ExecuteInternal`: the `foreach` over the tasks, in order;
        an exception from a task leaves the loop. */
    method ExecuteInternal(tasks: seq<Action>) returns (threw: bool)
      modifies this
      ensures Outcome(State(), threw) == RunAll(tasks, old(State()))
    {
      ghost var w0 := State();
      threw := false;
      var i := 0;
      while i < |tasks|
        invariant 0 <= i <= |tasks|
        invariant Outcome(State(), false) == RunAll(tasks[..i], w0)
      {
        RunAllSnoc(tasks[..i], tasks[i], w0);
        assert tasks[..i + 1] == tasks[..i] + [tasks[i]];
        threw := Invoke(tasks[i]);
        if threw {
          assert tasks[..i + 1] + tasks[i + 1..] == tasks;
          RunAllStopsAtThrow(tasks[..i + 1], tasks[i + 1..], w0);
          return;
        }
        i := i + 1;
      }
      assert tasks[..i] == tasks;
    }

    /** `Execute` of job `h` in place, dispatched on its class. */
    method Execute(h: nat, now: int, conds: nat -> bool) returns (repush: bool, threw: bool)
      requires h < |jobs|
      modifies this
      ensures Step(State(), repush, threw) == ExecuteJob(h, now, conds, old(State()))
    {
      var j := jobs[h];
      repush, threw := false, false;
      match j.kind
      case Plain(action) =>
        if !j.deactivated {
          threw := Invoke(action);
        }
      case Group(tasks) =>
        if !j.deactivated {
          threw := ExecuteInternal(tasks);
        }
      case Interval(task, cond, endTask, interval) =>
        if !j.deactivated {
          threw := Invoke(task);
        }
        if !threw {
          if !jobs[h].deactivated && CheckCondition(cond, conds) {
            jobs := jobs[h := SetInterval(jobs[h], now)];
            repush := true;
          } else {
            threw := Invoke(endTask);
          }
        }
    }
  }
}
