/** `IntervalTask` and `ExpirableIntervalTask`: a job that runs its payload and
    then either reschedules itself one interval later or ends, running its
    end task. */
module IntervalTasks {
  import opened Utils
  import opened TimerJobs

  /** The repeat condition: a null `checkCondition` is replaced by one that is
      always true; otherwise condition `c` answers `conds(c)` at this call. */
  function CheckCondition(cond: Option<nat>, conds: nat -> bool): (b: bool)
    ensures cond.None? ==> b
    ensures cond.Some? ==> (b <==> conds(cond.value))
  {
    match cond
    case None => true
    case Some(c) => conds(c)
  }

  /** `IntervalTask(task, checkCondition, endTask, delay, interval,
      startImmediatly)`: an active job whose first due time is `delay` after
      `now` when it starts immediately and `interval` after `now` otherwise. */
  function NewIntervalTask(task: Action, cond: Option<nat>, endTask: Action, delay: int, interval: int,
                           startImmediately: bool, now: int): (j: Job)
    ensures !j.deactivated && j.kind == Interval(task, cond, endTask, interval)
    ensures startImmediately ==> j.ticks - now == delay
    ensures !startImmediately ==> j.ticks - now == interval
  {
    Job(if startImmediately then now + delay else now + interval, false, Interval(task, cond, endTask, interval))
  }

  /** `SetInterval`: the next due time is one interval after `now`. */
  function SetInterval(j: Job, now: int): (r: Job)
    requires j.kind.Interval?
    ensures r.ticks - now == j.kind.interval
    ensures r.deactivated == j.deactivated && r.kind == j.kind
  {
    j.(ticks := now + j.kind.interval)
  }

  /** What one `Execute` of job `h` may change: flags only go up, only `h`'s
      due time can move, and it moves to one interval after `now` exactly when
      the job asks to be queued again, which then means it is still active. */
  ghost predicate StepFrame(h: nat, now: int, w: World, r: Step)
    requires h < |w.jobs|
  {
    && |r.world.jobs| == |w.jobs|
    && (forall k :: 0 <= k < |w.jobs| ==>
          r.world.jobs[k].kind == w.jobs[k].kind
          && (w.jobs[k].deactivated ==> r.world.jobs[k].deactivated)
          && (k != h || !r.repush ==> r.world.jobs[k].ticks == w.jobs[k].ticks))
    && (r.repush ==>
          && w.jobs[h].kind.Interval? && !r.threw && !r.world.jobs[h].deactivated
          && r.world.jobs[h].ticks == now + w.jobs[h].kind.interval)
  }

  /** `IntervalTask.Execute`: the payload runs while the job is active; an
      exception from it ends the call. Otherwise the flag is read again (the
      payload may have disposed the job): an active job whose condition holds
      moves its due time one interval past `now` and asks to be queued again;
      in every other case the end task runs and the job is not queued again. */
  function ExecuteInterval(h: nat, now: int, conds: nat -> bool, w: World): (r: Step)
    requires h < |w.jobs| && w.jobs[h].kind.Interval?
    ensures StepFrame(h, now, w, r)
  {
    var j := w.jobs[h];
    var base := if !j.deactivated then Invoke(j.kind.task, w) else Outcome(w, false);
    if base.threw then Step(base.world, false, true)
    else if !base.world.jobs[h].deactivated && CheckCondition(j.kind.cond, conds) then
      Step(World(base.world.jobs[h := SetInterval(base.world.jobs[h], now)], base.world.trace), true, false)
    else
      var fin := Invoke(j.kind.endTask, base.world);
      Step(fin.world, false, fin.threw)
  }

  /** A disposed interval task neither runs its payload nor consults its
      condition when it comes due: it runs its end task once and ends. */
  lemma DisposedIntervalEnds(h: nat, now: int, conds: nat -> bool, w: World)
    requires h < |w.jobs| && w.jobs[h].kind.Interval? && w.jobs[h].deactivated
    ensures var fin := Invoke(w.jobs[h].kind.endTask, w);
            ExecuteInterval(h, now, conds, w) == Step(fin.world, false, fin.threw)
  {
  }

  /** The rescheduling rule in both directions: the job is queued again exactly
      when the payload did not throw, did not dispose the job, and the
      condition holds. */
  lemma IntervalRepushIff(h: nat, now: int, conds: nat -> bool, w: World)
    requires h < |w.jobs| && w.jobs[h].kind.Interval?
    ensures var j := w.jobs[h];
            var base := if !j.deactivated then Invoke(j.kind.task, w) else Outcome(w, false);
            ExecuteInterval(h, now, conds, w).repush <==>
              !base.threw && !base.world.jobs[h].deactivated && CheckCondition(j.kind.cond, conds)
  {
  }

  /** An active interval task whose payload returns records it once and is
      rescheduled one interval later while its condition holds; once the
      condition fails the payload still runs, then the end task. */
  lemma IntervalRunsThenRepeatsOrEnds(h: nat, now: int, conds: nat -> bool, w: World, p: nat, q: nat)
    requires h < |w.jobs| && !w.jobs[h].deactivated
    requires w.jobs[h].kind.Interval? && w.jobs[h].kind.task == Run(p, false)
    requires w.jobs[h].kind.endTask == Run(q, false)
    ensures var r := ExecuteInterval(h, now, conds, w);
            && !r.threw
            && (CheckCondition(w.jobs[h].kind.cond, conds) ==>
                  r.repush && r.world.trace == w.trace + [p] && r.world.jobs[h].ticks == now + w.jobs[h].kind.interval)
            && (!CheckCondition(w.jobs[h].kind.cond, conds) ==>
                  !r.repush && r.world.trace == w.trace + [p, q] && r.world.jobs == w.jobs)
  {
  }

  /** Successive tick calls of `Execute` on job `h`: call `i` happens at
      `nows[i]` with conditions answering `cs[i]`, and the next call happens
      only while the job keeps asking to be queued again. */
  function RunsUntilEnd(h: nat, nows: seq<int>, cs: seq<nat -> bool>, w: World): (r: Step)
    requires h < |w.jobs| && w.jobs[h].kind.Interval? && 0 < |nows| == |cs|
    ensures |r.world.jobs| == |w.jobs|
    decreases |nows|
  {
    var first := ExecuteInterval(h, nows[0], cs[0], w);
    if first.repush && 1 < |nows| then RunsUntilEnd(h, nows[1..], cs[1..], first.world) else first
  }

  /** `n` copies of the id `p`. */
  function Copies(p: nat, n: nat): (r: seq<nat>)
    ensures |r| == n && forall i :: 0 <= i < n ==> r[i] == p
  {
    if n == 0 then [] else [p] + Copies(p, n - 1)
  }

  /** A condition that holds on the first `k` calls and fails on the next one,
      with no cancellation and no exception: the payload runs `k + 1` times,
      the end task runs once, after them, and the job is not queued again. */
  lemma {:induction false} IntervalRunsKPlusOne(h: nat, nows: seq<int>, cs: seq<nat -> bool>, w: World,
                                                p: nat, q: nat, c: nat, k: nat)
    requires h < |w.jobs| && !w.jobs[h].deactivated
    requires w.jobs[h].kind.Interval? && w.jobs[h].kind.cond == Some(c)
    requires w.jobs[h].kind.task == Run(p, false) && w.jobs[h].kind.endTask == Run(q, false)
    requires |nows| == |cs| == k + 1
    requires forall i :: 0 <= i < k ==> cs[i](c)
    requires !cs[k](c)
    ensures var r := RunsUntilEnd(h, nows, cs, w);
            && !r.repush && !r.threw
            && r.world.trace == w.trace + Copies(p, k + 1) + [q]
    decreases k
  {
    var first := ExecuteInterval(h, nows[0], cs[0], w);
    IntervalRunsThenRepeatsOrEnds(h, nows[0], cs[0], w, p, q);
    if k == 0 {
      assert first.world.trace == w.trace + [p, q];
      assert Copies(p, 1) + [q] == [p, q];
    } else {
      assert first.repush && first.world.trace == w.trace + [p];
      assert first.world.jobs[h].kind == w.jobs[h].kind && !first.world.jobs[h].deactivated;
      assert forall i :: 0 <= i < k - 1 ==> cs[1..][i] == cs[i + 1];
      IntervalRunsKPlusOne(h, nows[1..], cs[1..], first.world, p, q, c, k - 1);
      assert Copies(p, k + 1) == [p] + Copies(p, k);
      assert w.trace + [p] + Copies(p, k) + [q] == w.trace + Copies(p, k + 1) + [q];
    }
  }

  /** An exception from the payload ends the call before the condition and
      before the end task: nothing is rescheduled and nothing else runs. */
  lemma IntervalThrowSkipsEndTask(h: nat, now: int, conds: nat -> bool, w: World, p: nat)
    requires h < |w.jobs| && !w.jobs[h].deactivated
    requires w.jobs[h].kind.Interval? && w.jobs[h].kind.task == Run(p, true)
    ensures var r := ExecuteInterval(h, now, conds, w);
            r.threw && !r.repush && r.world == World(w.jobs, w.trace + [p])
  {
  }

  /** `ExpirableIntervalTask`: the constructor queues the job's `Dispose` at the
      expiry time. Once that has run, the next time the task comes due it ends,
      running its end task, whatever its condition says. */
  lemma ExpiryEndsInterval(h: nat, now: int, conds: nat -> bool, w: World)
    requires h < |w.jobs| && w.jobs[h].kind.Interval?
    ensures var expired := Invoke(DisposeJob(h), w).world;
            var fin := Invoke(w.jobs[h].kind.endTask, expired);
            ExecuteInterval(h, now, conds, expired) == Step(fin.world, false, fin.threw)
  {
  }

  /** A payload that disposes its own job ends the repetition at once: the
      flag is read after the payload, so the end task runs in the same call. */
  lemma SelfDisposeEndsAtOnce(h: nat, now: int, conds: nat -> bool, w: World)
    requires h < |w.jobs| && !w.jobs[h].deactivated
    requires w.jobs[h].kind.Interval? && w.jobs[h].kind.task == DisposeJob(h)
    ensures var r := ExecuteInterval(h, now, conds, w);
            !r.repush && r.world.jobs[h].deactivated
  {
  }
}
