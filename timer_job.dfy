/** `TimerJob` and the payloads it runs, as values. A job is a record in the
    job store (see JobStores); a reference to a job is its index there. */
module TimerJobs {
  import opened Utils

  /** A delegate (`System.Action`) as the scheduler sees it:
      `Null` is a null delegate; `Run(id, throws)` is caller code, recorded in
      the trace as `id` when it is invoked, that throws once it has run when
      `throws` holds; `DisposeJob(h)` is the bound method `Dispose` of job `h`
      (the payload an `ExpirableIntervalTask` schedules). */
  datatype Action = Null | Run(id: nat, throws: bool) | DisposeJob(target: nat)

  /** The concrete class of a job and the fields that class adds. */
  datatype Kind =
    | Plain(action: Action)
    | Interval(task: Action, cond: Option<nat>, endTask: Action, interval: int)
    | Group(tasks: seq<Action>)

  /** A `TimerJob`: its due time `ExecutedTicks`, the one-way `isDeActivated`
      flag, and its class. */
  datatype Job = Job(ticks: int, deactivated: bool, kind: Kind)

  /** What payloads can touch: every job, by reference number, and the trace
      of the payload ids invoked so far. */
  datatype World = World(jobs: seq<Job>, trace: seq<nat>)

  /** The world after running caller code, and whether that code threw. */
  datatype Outcome = Outcome(world: World, threw: bool)

  /** What running a job's `Execute` leaves behind: the world, whether the job
      asked to be queued again (an `IntervalTask` rescheduling itself), and
      whether an exception escaped. */
  datatype Step = Step(world: World, repush: bool, threw: bool)

  /** Two worlds that differ at most in the `isDeActivated` flags, and where a
      flag changes it goes from active to deactivated. */
  ghost predicate OnlyDeactivates(w: World, w': World)
  {
    && |w'.jobs| == |w.jobs|
    && forall h :: 0 <= h < |w.jobs| ==>
         w'.jobs[h].ticks == w.jobs[h].ticks && w'.jobs[h].kind == w.jobs[h].kind
         && (w.jobs[h].deactivated ==> w'.jobs[h].deactivated)
  }

  /** `TimerJob(action, executedTicks)`: an active job due at `executedTicks`. */
  function NewTimerJob(action: Action, executedTicks: int): (j: Job)
    ensures !j.deactivated && j.ticks == executedTicks && j.kind == Plain(action)
  {
    Job(executedTicks, false, Plain(action))
  }

  /** `MarkDisposed`: the job is deactivated; nothing else about it changes. */
  function MarkDisposed(j: Job): (r: Job)
    ensures r.deactivated
    ensures r.ticks == j.ticks && r.kind == j.kind
  {
    j.(deactivated := true)
  }

  /** Marking twice is marking once, and no call clears the flag again. */
  lemma MarkDisposedIdempotent(j: Job)
    ensures MarkDisposed(MarkDisposed(j)) == MarkDisposed(j)
    ensures j.deactivated ==> MarkDisposed(j) == j
  {
  }

  /** `Dispose`: marks the job disposed (and logs, which is not modelled). */
  function Dispose(j: Job): (r: Job)
    ensures r.deactivated && r.ticks == j.ticks && r.kind == j.kind
  {
    MarkDisposed(j)
  }

  /** `TimerJob.CompareTo`: compares the due times and nothing else. */
  function CompareTo(a: Job, b: Job): (c: int)
    ensures c < 0 <==> a.ticks < b.ticks
    ensures c == 0 <==> a.ticks == b.ticks
    ensures c > 0 <==> a.ticks > b.ticks
  {
    CompareNumbers(a.ticks, b.ticks)
  }

  /** Deactivating job `h`, if there is one. */
  function DisposeAt(w: World, h: nat): (r: World)
    ensures OnlyDeactivates(w, r) && r.trace == w.trace
    ensures h < |w.jobs| ==> r.jobs == w.jobs[h := MarkDisposed(w.jobs[h])]
    ensures h >= |w.jobs| ==> r == w
  {
    if h < |w.jobs| then World(w.jobs[h := Dispose(w.jobs[h])], w.trace) else w
  }

  /** `Utils.Execute(Action)`: a null delegate does nothing; any other delegate
      is invoked exactly once. */
  function Invoke(a: Action, w: World): (o: Outcome)
    ensures a.Null? ==> o == Outcome(w, false)
    ensures a.Run? ==> o == Outcome(World(w.jobs, w.trace + [a.id]), a.throws)
    ensures a.DisposeJob? ==> o == Outcome(DisposeAt(w, a.target), false)
    ensures OnlyDeactivates(w, o.world)
  {
    match a
    case Null => Outcome(w, false)
    case Run(id, throws) => Outcome(World(w.jobs, w.trace + [id]), throws)
    case DisposeJob(h) => Outcome(DisposeAt(w, h), false)
  }

  /** `Utils.DisposeNullChk`: a null reference is ignored; otherwise the job's
      `Dispose` is called once. */
  function DisposeNullChk(h: Option<nat>, w: World): (r: World)
    ensures h.None? ==> r == w
    ensures h.Some? && h.value < |w.jobs| ==> r.jobs == w.jobs[h.value := MarkDisposed(w.jobs[h.value])]
    ensures r.trace == w.trace && OnlyDeactivates(w, r)
  {
    match h
    case None => w
    case Some(j) => DisposeAt(w, j)
  }

  /** `TimerJob.Execute`: the action runs only while the job is active. */
  function ExecutePlain(j: Job, w: World): (o: Outcome)
    requires j.kind.Plain?
    ensures j.deactivated ==> o == Outcome(w, false)
    ensures !j.deactivated ==> o == Invoke(j.kind.action, w)
  {
    if !j.deactivated then Invoke(j.kind.action, w) else Outcome(w, false)
  }
}
