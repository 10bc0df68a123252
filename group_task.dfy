/** `GroupTask`: a job whose payload is an ordered list of delegates. */
module GroupTasks {
  import opened Utils
  import opened TimerJobs

  /** `GroupTask(newTasks, executedTicks)`: an active group job due at
      `executedTicks` holding its own copy of the tasks, in the given order. */
  function NewGroupTask(newTasks: seq<Action>, executedTicks: int): (j: Job)
    ensures !j.deactivated && j.ticks == executedTicks
    ensures j.kind.Group? && j.kind.tasks == newTasks
  {
    Job(executedTicks, false, Group(newTasks))
  }

  /** `AddTask`: the list grows by one at the end; the earlier entries stay. */
  function AddTask(tasks: seq<Action>, newTask: Action): (r: seq<Action>)
    ensures |r| == |tasks| + 1 && r[..|tasks|] == tasks && r[|tasks|] == newTask
  {
    tasks + [newTask]
  }

  /** The first index holding `target` by value equality (`List<T>.Remove`). */
  function FirstIndex(tasks: seq<Action>, target: Action): (k: int)
    ensures -1 <= k < |tasks|
    ensures k == -1 <==> target !in tasks
    ensures 0 <= k ==> tasks[k] == target && target !in tasks[..k]
  {
    if |tasks| == 0 then -1
    else if tasks[0] == target then 0
    else
      var k := FirstIndex(tasks[1..], target);
      if k == -1 then -1 else k + 1
  }

  /** `RemoveTask` (`List<T>.Remove`): drops the first equal entry, or returns
      the list unchanged when there is none. */
  function RemoveTask(tasks: seq<Action>, target: Action): (r: seq<Action>)
    ensures target !in tasks ==> r == tasks
    ensures target in tasks ==> r == tasks[..FirstIndex(tasks, target)] + tasks[FirstIndex(tasks, target) + 1..]
  {
    if |tasks| == 0 then tasks
    else if tasks[0] == target then tasks[1..]
    else [tasks[0]] + RemoveTask(tasks[1..], target)
  }

  /** `IndexOf` (`List.FindIndex(task => task.Equals(targetTask))`): the first
      index holding `target`, or -1 when there is none. The predicate calls
      `Equals` on each entry in turn, so a null entry reached before a match
      throws `NullReferenceException`, modelled as `None`. */
  function IndexOf(tasks: seq<Action>, target: Action): (r: Option<int>)
    ensures r.Some? ==> -1 <= r.value < |tasks|
    ensures r == Some(-1) <==> target !in tasks && Action.Null !in tasks
    ensures r.Some? && 0 <= r.value ==> tasks[r.value] == target && target !in tasks[..r.value]
    ensures r.Some? && 0 <= r.value ==> Action.Null !in tasks[..r.value]
    ensures r.None? <==>
      Action.Null in tasks[..if target in tasks then FirstIndex(tasks, target) + 1 else |tasks|]
  {
    if |tasks| == 0 then Some(-1)
    else if tasks[0].Null? then None
    else if tasks[0] == target then Some(0)
    else
      match IndexOf(tasks[1..], target)
      case None => None
      case Some(k) => if k == -1 then Some(-1) else Some(k + 1)
  }

  /** `ExecuteInternal`: invokes every task in list order (a null one does
      nothing); an exception from a task ends the pass and propagates. */
  function RunAll(tasks: seq<Action>, w: World): (o: Outcome)
    ensures OnlyDeactivates(w, o.world)
  {
    if |tasks| == 0 then Outcome(w, false)
    else
      var first := Invoke(tasks[0], w);
      if first.threw then first else RunAll(tasks[1..], first.world)
  }

  /** Running one more task after a pass that did not throw. */
  lemma {:induction false} RunAllSnoc(tasks: seq<Action>, t: Action, w: World)
    ensures RunAll(tasks + [t], w) ==
      (var o := RunAll(tasks, w); if o.threw then o else Invoke(t, o.world))
    decreases |tasks|
  {
    if |tasks| == 0 {
      assert tasks + [t] == [t];
      assert [t][1..] == [];
    } else {
      assert (tasks + [t])[1..] == tasks[1..] + [t];
      var first := Invoke(tasks[0], w);
      if !first.threw {
        RunAllSnoc(tasks[1..], t, first.world);
      }
    }
  }

  /** A pass that threw stops there: the tasks after it never run. */
  lemma {:induction false} RunAllStopsAtThrow(tasks: seq<Action>, rest: seq<Action>, w: World)
    requires RunAll(tasks, w).threw
    ensures RunAll(tasks + rest, w) == RunAll(tasks, w)
    decreases |tasks|
  {
    assert 0 < |tasks|;
    assert (tasks + rest)[1..] == tasks[1..] + rest;
    var first := Invoke(tasks[0], w);
    if !first.threw {
      RunAllStopsAtThrow(tasks[1..], rest, first.world);
    }
  }

  /** The ids the tasks record, in list order, skipping null entries. */
  function RunIds(tasks: seq<Action>): seq<nat>
  {
    if |tasks| == 0 then []
    else (if tasks[0].Run? then [tasks[0].id] else []) + RunIds(tasks[1..])
  }

  /** When no task throws, a pass runs every task once, in list order, and
      appends exactly their ids to the trace. */
  lemma {:induction false} RunAllTrace(tasks: seq<Action>, w: World)
    requires forall i :: 0 <= i < |tasks| ==> !(tasks[i].Run? && tasks[i].throws)
    ensures !RunAll(tasks, w).threw
    ensures RunAll(tasks, w).world.trace == w.trace + RunIds(tasks)
    decreases |tasks|
  {
    if |tasks| != 0 {
      var rest := tasks[1..];
      assert forall i :: 0 <= i < |rest| ==> rest[i] == tasks[i + 1];
      var head := if tasks[0].Run? then [tasks[0].id] else [];
      var first := Invoke(tasks[0], w);
      assert !first.threw && first.world.trace == w.trace + head;
      RunAllTrace(rest, first.world);
      assert RunAll(tasks, w) == RunAll(rest, first.world);
      assert RunIds(tasks) == head + RunIds(rest);
      assert w.trace + head + RunIds(rest) == w.trace + (head + RunIds(rest));
    }
  }

  /** `GroupTask.Execute`: a deactivated group runs no task. */
  function ExecuteGroup(j: Job, w: World): (o: Outcome)
    requires j.kind.Group?
    ensures j.deactivated ==> o == Outcome(w, false)
    ensures !j.deactivated ==> o == RunAll(j.kind.tasks, w)
  {
    if !j.deactivated then RunAll(j.kind.tasks, w) else Outcome(w, false)
  }
}
