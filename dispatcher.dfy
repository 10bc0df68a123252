/** `GlobalDispatchTimer`: the per-frame dispatcher. It keeps the job queue,
    the destroy triggers it watches and, per trigger key, the jobs bound to
    that trigger. Each `LateUpdate` first cancels the jobs of destroyed
    triggers and then runs, in queue order, every job that has come due. */
module GlobalDispatch {
  import opened Utils
  import opened PriorityQueues
  import opened TimerJobs
  import opened IntervalTasks
  import opened JobStores
  import opened DestroyTriggers
  import opened DispatchTime

  /** `GDT_STATUS`. */
  datatype GdtStatus = UNINITIALIZED | RUNNING | STOP

  /** The queue mirrors the job table: each entry names a job of the table and
      carries that job's current due time, no job is queued twice, and a
      queued interval task has a positive interval. */
  ghost predicate Mirrors(m: multiset<Entry>, jobs: seq<Job>)
  {
    && (forall e | e in m ::
          && e.job < |jobs| && e.due == jobs[e.job].ticks
          && (jobs[e.job].kind.Interval? ==> 0 < jobs[e.job].kind.interval))
    && (forall a, b {:trigger JobOf(a), JobOf(b)} | a in m && b in m && JobOf(a) == JobOf(b) :: a == b)
  }

  /** The job of an entry, as the term on which "no job is queued twice" is
      instantiated. */
  ghost function JobOf(e: Entry): nat
  {
    e.job
  }

  /** Changing flags, group task lists or anything else that leaves every due
      time and every interval task as it was keeps the queue a mirror. */
  lemma MirrorsKeep(m: multiset<Entry>, jobs: seq<Job>, jobs': seq<Job>)
    requires Mirrors(m, jobs) && SameSchedule(jobs, jobs')
    ensures Mirrors(m, jobs')
  {
  }

  /** A new job at the end of the table is named by no entry. */
  lemma MirrorsExtend(m: multiset<Entry>, jobs: seq<Job>, j: Job)
    requires Mirrors(m, jobs)
    ensures Mirrors(m, jobs + [j])
    ensures forall e | e in m :: e.job != |jobs|
  {
    forall e | e in m
      ensures e.job < |jobs| && (jobs + [j])[e.job] == jobs[e.job]
    {
    }
  }

  /** Queuing a job that is not queued yet, with its own due time. */
  lemma MirrorsAdd(m: multiset<Entry>, jobs: seq<Job>, x: Entry)
    requires Mirrors(m, jobs)
    requires x.job < |jobs| && x.due == jobs[x.job].ticks
    requires jobs[x.job].kind.Interval? ==> 0 < jobs[x.job].kind.interval
    requires forall e | e in m :: e.job != x.job
    ensures Mirrors(m + multiset{x}, jobs)
  {
  }

  /** After job `x.job` has run, the queue without `x` still mirrors the
      table: only that job's due time can have moved. */
  lemma MirrorsAfterRun(m: multiset<Entry>, lastId: nat, w: World, x: Entry, now: int, r: Step)
    requires Mirrors(m, w.jobs) && IdsDistinct(m, lastId) && x in m && x.job < |w.jobs|
    requires StepFrame(x.job, now, w, r)
    ensures Mirrors(m - multiset{x}, r.world.jobs)
    ensures forall e | e in m - multiset{x} :: e.job != x.job
  {
    forall e | e in m - multiset{x}
      ensures e.job != x.job
    {
      assert e in m && e != x && JobOf(e) != JobOf(x);
    }
  }

  /** After the root entry `x` has run with outcome `r`, the queue without
      `x`, plus the entry under the next id that a job asking to be queued
      again adds, mirrors the new table; that entry is due after `now`. */
  lemma RequeueMirrors(m: multiset<Entry>, lastId: nat, w: World, x: Entry, now: int, r: Step, requeued: multiset<Entry>)
    requires Mirrors(m, w.jobs) && IdsDistinct(m, lastId) && x in m && x.job < |w.jobs|
    requires StepFrame(x.job, now, w, r)
    requires requeued == if r.repush then multiset{Entry(r.world.jobs[x.job].ticks, x.job, lastId + 1)} else multiset{}
    ensures Mirrors(m - multiset{x} + requeued, r.world.jobs)
    ensures r.repush ==> now < r.world.jobs[x.job].ticks
  {
    MirrorsAfterRun(m, lastId, w, x, now, r);
    var y := Entry(r.world.jobs[x.job].ticks, x.job, lastId + 1);
    if r.repush {
      MirrorsAdd(m - multiset{x}, r.world.jobs, y);
    } else {
      assert m - multiset{x} + multiset{} == m - multiset{x};
    }
  }

  /** The keys of the watched triggers. */
  ghost function KeysOf(ts: seq<DestroyTrigger>): set<int>
  {
    set i | 0 <= i < |ts| :: ts[i].key
  }

  /** The key of trigger `i`, as the term on which "no trigger is watched
      twice" is instantiated. */
  ghost function KeyAt(ts: seq<DestroyTrigger>, i: nat): int
    requires i < |ts|
  {
    ts[i].key
  }

  /** The map has an entry for exactly the keys of the watched triggers, no
      trigger is watched twice, and every job bound to a key is a job of the
      table. */
  ghost predicate TriggersAgree(ts: seq<DestroyTrigger>, tmap: map<int, seq<nat>>, n: nat)
  {
    && tmap.Keys == KeysOf(ts)
    && (forall i, j {:trigger KeyAt(ts, i), KeyAt(ts, j)} | 0 <= i < j < |ts| :: KeyAt(ts, i) != KeyAt(ts, j))
    && (forall k, h | k in tmap && h in tmap[k] :: h < n)
  }

  /** Binding job `h` to a trigger keeps the map in agreement with the list:
      a known key gets `h` appended, a new trigger joins the list with `[h]`. */
  lemma TriggersAgreeRegister(ts: seq<DestroyTrigger>, tmap: map<int, seq<nat>>, n: nat, t: DestroyTrigger, h: nat)
    requires TriggersAgree(ts, tmap, n) && h < n
    ensures t.key in tmap ==> TriggersAgree(ts, tmap[t.key := tmap[t.key] + [h]], n)
    ensures t.key !in tmap ==> TriggersAgree(ts + [t], tmap[t.key := [] + [h]], n)
  {
    if t.key !in tmap {
      var ts' := ts + [t];
      assert ts'[|ts|].key == t.key;
      forall k | k in KeysOf(ts) ensures k in KeysOf(ts') {
        var i :| 0 <= i < |ts| && ts[i].key == k;
        assert ts'[i] == ts[i];
      }
      forall k | k in KeysOf(ts') ensures k in KeysOf(ts) || k == t.key {
        var i :| 0 <= i < |ts'| && ts'[i].key == k;
        if i < |ts| {
          assert ts'[i] == ts[i];
        }
      }
      forall i, j | 0 <= i < j < |ts'| ensures KeyAt(ts', i) != KeyAt(ts', j) {
        assert ts'[i] == ts[i];
        if j < |ts| {
          assert ts'[j] == ts[j] && KeyAt(ts, i) != KeyAt(ts, j);
        } else {
          assert ts[i].key in KeysOf(ts);
        }
      }
    }
  }

  /** Taking trigger `k` off the list and its key out of the map keeps the two
      in agreement. */
  lemma TriggersAgreeUnwatch(ts: seq<DestroyTrigger>, tmap: map<int, seq<nat>>, n: nat, k: nat)
    requires TriggersAgree(ts, tmap, n) && k < |ts|
    ensures TriggersAgree(ts[..k] + ts[k + 1..], Without(tmap, [ts[k].key]), n)
  {
    var ts' := ts[..k] + ts[k + 1..];
    assert forall i | 0 <= i < |ts'| :: ts'[i] == ts[if i < k then i else i + 1];
    forall x | x in KeysOf(ts) && x != ts[k].key ensures x in KeysOf(ts') {
      var i :| 0 <= i < |ts| && ts[i].key == x;
      assert ts'[if i < k then i else i - 1] == ts[i];
    }
    forall x | x in KeysOf(ts') ensures x in KeysOf(ts) && x != ts[k].key {
      var i :| 0 <= i < |ts'| && ts'[i].key == x;
      var i0 := if i < k then i else i + 1;
      assert ts'[i] == ts[i0];
      if i0 < k {
        assert KeyAt(ts, i0) != KeyAt(ts, k);
      } else {
        assert KeyAt(ts, k) != KeyAt(ts, i0);
      }
    }
    forall i, j | 0 <= i < j < |ts'| ensures KeyAt(ts', i) != KeyAt(ts', j) {
      var i0, j0 := if i < k then i else i + 1, if j < k then j else j + 1;
      assert KeyAt(ts', i) == KeyAt(ts, i0) && KeyAt(ts', j) == KeyAt(ts, j0);
    }
  }

  /** The `IsActivated` flags of the triggers, in list order. */
  ghost function Activity(ts: seq<DestroyTrigger>): (acts: seq<bool>)
    reads set t | t in ts
    ensures |acts| == |ts| && forall i :: 0 <= i < |ts| ==> acts[i] == ts[i].isActivated
  {
    if |ts| == 0 then [] else Activity(ts[..|ts| - 1]) + [ts[|ts| - 1].isActivated]
  }

  /** The triggers still active, in list order. */
  function Survivors(ts: seq<DestroyTrigger>, acts: seq<bool>): (r: seq<DestroyTrigger>)
    requires |acts| == |ts|
    ensures |r| <= |ts|
    ensures forall t | t in r :: t in ts
  {
    if |ts| == 0 then []
    else Survivors(ts[..|ts| - 1], acts[..|ts| - 1]) + (if acts[|ts| - 1] then [ts[|ts| - 1]] else [])
  }

  /** The keys of the triggers no longer active, in list order. */
  function DeadKeys(ts: seq<DestroyTrigger>, acts: seq<bool>): (r: seq<int>)
    requires |acts| == |ts|
    ensures forall k | k in r :: k in KeysOf(ts)
  {
    if |ts| == 0 then []
    else DeadKeys(ts[..|ts| - 1], acts[..|ts| - 1]) + (if acts[|ts| - 1] then [] else [ts[|ts| - 1].key])
  }

  /** The first trigger found destroyed, or -1 when all are active. */
  function FirstInactive(acts: seq<bool>): (k: int)
    ensures -1 <= k < |acts|
    ensures k == -1 <==> forall i :: 0 <= i < |acts| ==> acts[i]
    ensures 0 <= k ==> !acts[k] && forall i :: 0 <= i < k ==> acts[i]
  {
    if |acts| == 0 then -1
    else if !acts[0] then 0
    else
      var k := FirstInactive(acts[1..]);
      if k == -1 then -1 else k + 1
  }

  /** The watch list after one frame's walk as written: without its first
      destroyed trigger, if there is one. */
  function WalkKept(ts: seq<DestroyTrigger>, acts: seq<bool>): (r: seq<DestroyTrigger>)
    requires |acts| == |ts|
    ensures FirstInactive(acts) == -1 ==> r == ts
    ensures 0 <= FirstInactive(acts) ==>
              |r| == |ts| - 1 && r[..FirstInactive(acts)] == ts[..FirstInactive(acts)] && r[FirstInactive(acts)..] == ts[FirstInactive(acts) + 1..]
  {
    var k := FirstInactive(acts);
    if k == -1 then ts else ts[..k] + ts[k + 1..]
  }

  /** The keys one frame's walk as written marks: that of the first destroyed
      trigger, if there is one. */
  function WalkKeys(ts: seq<DestroyTrigger>, acts: seq<bool>): (r: seq<int>)
    requires |acts| == |ts|
    ensures |r| <= 1 && (r == [] <==> forall i :: 0 <= i < |acts| ==> acts[i])
  {
    var k := FirstInactive(acts);
    if k == -1 then [] else [ts[k].key]
  }

  /** One frame's walk as written keeps the map in agreement with the list. */
  lemma TriggersAgreeWalk(ts: seq<DestroyTrigger>, tmap: map<int, seq<nat>>, n: nat, acts: seq<bool>)
    requires TriggersAgree(ts, tmap, n) && |acts| == |ts|
    ensures TriggersAgree(WalkKept(ts, acts), Without(tmap, WalkKeys(ts, acts)), n)
  {
    var k := FirstInactive(acts);
    if k == -1 {
      assert Without(tmap, []) == tmap;
    } else {
      TriggersAgreeUnwatch(ts, tmap, n, k);
    }
  }

  /** With every trigger active, the full sweep keeps them all and finds no
      key destroyed. */
  lemma {:induction false} SweepOfActive(ts: seq<DestroyTrigger>, acts: seq<bool>)
    requires |acts| == |ts| && forall i :: 0 <= i < |acts| ==> acts[i]
    ensures Survivors(ts, acts) == ts && DeadKeys(ts, acts) == []
    decreases |ts|
  {
    if |ts| != 0 {
      var n := |ts| - 1;
      SweepOfActive(ts[..n], acts[..n]);
      assert ts[..n] + [ts[n]] == ts;
    }
  }

  /** With exactly one trigger destroyed, the full sweep removes just that one:
      the walk as written, which stops at the first destroyed trigger, then
      does all the sweep does. */
  lemma {:induction false} SweepOfOneDead(ts: seq<DestroyTrigger>, acts: seq<bool>, k: nat)
    requires |acts| == |ts| && k < |ts| && !acts[k]
    requires forall i :: 0 <= i < |acts| && i != k ==> acts[i]
    ensures FirstInactive(acts) == k
    ensures Survivors(ts, acts) == ts[..k] + ts[k + 1..] && DeadKeys(ts, acts) == [ts[k].key]
    decreases |ts|
  {
    var n := |ts| - 1;
    if k == n {
      SweepOfActive(ts[..n], acts[..n]);
      assert ts[k + 1..] == [];
    } else {
      SweepOfOneDead(ts[..n], acts[..n], k);
      assert ts[..n][..k] == ts[..k];
      assert ts[..n][k + 1..] + [ts[n]] == ts[k + 1..];
      assert ts[..n][k] == ts[k];
    }
  }

  /** One frame of the walk as written can leave a destroyed trigger behind:
      with two triggers, both destroyed, and a job `h` bound to the second, the
      walk (which stops at the first removal) removes only the first trigger and
      disposes nothing bound to the second, while the full sweep removes both
      and disposes `h`. */
  lemma {:induction false} WalkLeavesSecondDestroyed(ts: seq<DestroyTrigger>, h: nat)
    requires |ts| == 2 && ts[0].key != ts[1].key
    ensures var acts := [false, false];
            var tmap := map[ts[1].key := [h]];
            && WalkKept(ts, acts) == [ts[1]] && !acts[1]
            && WalkKeys(ts, acts) == [ts[0].key]
            && h !in Doomed(tmap, WalkKeys(ts, acts))
            && Survivors(ts, acts) == []
            && DeadKeys(ts, acts) == [ts[0].key, ts[1].key]
            && h in Doomed(tmap, DeadKeys(ts, acts))
  {
    var acts := [false, false];
    assert ts[..1][..0] == [] && ts[..1] == [ts[0]] && acts[..1] == [false];
    assert ts[..0] + ts[1..] == [ts[1]];
    assert Survivors(ts[..1], acts[..1]) == [];
    assert DeadKeys(ts[..1], acts[..1]) == [ts[0].key];
    var tmap := map[ts[1].key := [h]];
    assert ts[1].key in DeadKeys(ts, acts) && h in tmap[ts[1].key];
  }

  /** The jobs bound, in `tmap`, to any of `keys`. */
  ghost function Doomed(tmap: map<int, seq<nat>>, keys: seq<int>): set<nat>
  {
    set k, h | k in keys && k in tmap && h in tmap[k] :: h
  }

  /** The map without the entries for `keys`. */
  function Without(tmap: map<int, seq<nat>>, keys: seq<int>): (r: map<int, seq<nat>>)
    ensures r.Keys == tmap.Keys - (set k | k in keys)
    ensures forall k | k in r :: r[k] == tmap[k]
  {
    map k | k in tmap && k !in keys :: tmap[k]
  }

  /** Every job in `hs` marked disposed, and nothing else changed. */
  ghost function DisposeAll(w: World, hs: set<nat>): (r: World)
    ensures |r.jobs| == |w.jobs| && r.trace == w.trace
    ensures forall h :: 0 <= h < |w.jobs| ==> r.jobs[h] == if h in hs then MarkDisposed(w.jobs[h]) else w.jobs[h]
    ensures SameSchedule(w.jobs, r.jobs)
  {
    World(seq(|w.jobs|, h requires 0 <= h < |w.jobs| => if h in hs then MarkDisposed(w.jobs[h]) else w.jobs[h]), w.trace)
  }

  /** The jobs of `es`, run in order as one `LateUpdate` runs them; an
      exception from a job is caught and the next one runs. */
  ghost function Replay(es: seq<Entry>, now: int, conds: nat -> bool, w: World): (r: World)
    requires forall i :: 0 <= i < |es| ==> es[i].job < |w.jobs|
    ensures |r.jobs| == |w.jobs|
  {
    if |es| == 0 then w
    else
      var before := Replay(es[..|es| - 1], now, conds, w);
      ExecuteJob(es[|es| - 1].job, now, conds, before).world
  }

  /** The entries due at `now`. */
  ghost function DueSet(m: multiset<Entry>, now: int): set<Entry>
  {
    set e | e in m && e.due <= now
  }

  /** Entries in strictly increasing queue order. */
  ghost predicate Ascending(es: seq<Entry>)
  {
    forall i, j :: 0 <= i < j < |es| ==> Before(es[i], es[j])
  }

  /** The bookkeeping of the `LateUpdate` loop: starting from the queue `c0`,
      the entries `executed` have run, in queue order, and `added` have been
      queued again, all after `now`; `c` is what the queue holds now, and
      every entry of it comes after the last entry run. */
  ghost predicate Drained(c0: multiset<Entry>, added: multiset<Entry>, executed: seq<Entry>, c: multiset<Entry>, now: int)
  {
    && c + multiset(executed) == c0 + added
    && (forall x | x in added :: now < x.due)
    && (forall i | 0 <= i < |executed| :: executed[i].due <= now && executed[i] in c0)
    && Ascending(executed)
    && (0 < |executed| ==> forall x | x in c :: Before(executed[|executed| - 1], x))
  }

  /** The multiset bookkeeping of one turn: `e` moves from the queue to the
      run entries, `requeued` joins both the queue and the added entries. */
  lemma CountsSnoc(c0: multiset<Entry>, added: multiset<Entry>, executed: seq<Entry>, c: multiset<Entry>,
                   e: Entry, requeued: multiset<Entry>, c': multiset<Entry>)
    requires c + multiset(executed) == c0 + added && e in c
    requires c' == c - multiset{e} + requeued
    ensures c' + multiset(executed + [e]) == c0 + (added + requeued)
  {
    assert multiset(executed + [e]) == multiset(executed) + multiset{e};
    assert c - multiset{e} + multiset{e} == c;
    assert c' + multiset(executed + [e]) == (c - multiset{e} + multiset{e}) + multiset(executed) + requeued;
  }

  /** A due entry of the starting queue, appended to the run entries, keeps
      all of them due and from the starting queue. */
  lemma DueSnoc(c0: multiset<Entry>, executed: seq<Entry>, e: Entry, now: int)
    requires forall i | 0 <= i < |executed| :: executed[i].due <= now && executed[i] in c0
    requires e.due <= now && e in c0
    ensures forall i | 0 <= i < |executed + [e]| :: (executed + [e])[i].due <= now && (executed + [e])[i] in c0
  {
    forall i | 0 <= i < |executed + [e]|
      ensures (executed + [e])[i].due <= now && (executed + [e])[i] in c0
    {
      if i < |executed| {
        assert (executed + [e])[i] == executed[i];
      }
    }
  }

  /** An entry after the last of an ascending run extends it. */
  lemma AscendingSnoc(executed: seq<Entry>, e: Entry)
    requires Ascending(executed)
    requires 0 < |executed| ==> Before(executed[|executed| - 1], e)
    ensures Ascending(executed + [e])
  {
    var es := executed + [e];
    forall i, j | 0 <= i < j < |es|
      ensures Before(es[i], es[j])
    {
      if j == |executed| {
        assert es[i] == executed[i];
        if i < |executed| - 1 {
          assert Before(executed[i], executed[|executed| - 1]);
        }
      } else {
        assert es[i] == executed[i] && es[j] == executed[j];
      }
    }
  }

  /** One turn of the loop: the root `e` of `c` is due and no entry comes
      before it; it leaves the queue and `requeued`, due after `now`, joins
      it. The bookkeeping carries over, and fewer due entries remain. */
  lemma DrainStep(c0: multiset<Entry>, added: multiset<Entry>, executed: seq<Entry>, c: multiset<Entry>,
                  lastId: nat, e: Entry, requeued: multiset<Entry>, c': multiset<Entry>, now: int)
    requires Drained(c0, added, executed, c, now) && IdsDistinct(c, lastId)
    requires e in c && e.due <= now && forall x | x in c :: !Before(x, e)
    requires c' == c - multiset{e} + requeued && forall x | x in requeued :: now < x.due
    ensures Drained(c0, added + requeued, executed + [e], c', now)
    ensures DueSet(c', now) < DueSet(c, now)
  {
    assert e in c0 by {
      assert (c0 + added)[e] == (c + multiset(executed))[e];
    }
    forall x | x in c'
      ensures Before(e, x)
    {
      if x in c - multiset{e} {
        assert x in c && x != e;
        IdsApart(c, lastId, x, e);
      }
    }
    CountsSnoc(c0, added, executed, c, e, requeued, c');
    DueSnoc(c0, executed, e, now);
    AscendingSnoc(executed, e);
    assert e in DueSet(c, now) && e !in DueSet(c', now);
  }

  /** When the loop ends with nothing due left, `executed` is exactly the due
      part of the queue it started from, and the part not due is still
      queued. */
  lemma DrainDone(c0: multiset<Entry>, added: multiset<Entry>, executed: seq<Entry>, c: multiset<Entry>, now: int)
    requires Drained(c0, added, executed, c, now) && forall x | x in c :: now < x.due
    ensures forall x :: x in executed <==> x in c0 && x.due <= now
    ensures forall x | x in c0 && now < x.due :: x in c
  {
    forall x | x in c0
      ensures x in c || x in executed
    {
      assert (c + multiset(executed))[x] == (c0 + added)[x];
    }
    forall x | x in executed
      ensures x in c0 && x.due <= now
    {
      var i :| 0 <= i < |executed| && executed[i] == x;
    }
  }

  /** The table after run `i` of a chain of tables. */
  ghost function WorldAfter(ws: seq<World>, i: nat): World
    requires i + 1 < |ws|
  {
    ws[i + 1]
  }

  /** `ws` are the tables met while the entries `es` run one after another:
      `ws[i + 1]` is `ws[i]` after the job of `es[i]` has run. */
  ghost predicate Chain(es: seq<Entry>, ws: seq<World>, now: int, conds: nat -> bool)
  {
    && |ws| == |es| + 1
    && forall i {:trigger WorldAfter(ws, i)} | 0 <= i < |es| ::
         es[i].job < |ws[i].jobs| && WorldAfter(ws, i) == ExecuteJob(es[i].job, now, conds, ws[i]).world
  }

  /** Running one more entry on the last table extends the chain. */
  lemma ChainSnoc(es: seq<Entry>, ws: seq<World>, e: Entry, now: int, conds: nat -> bool)
    requires Chain(es, ws, now, conds) && e.job < |ws[|es|].jobs|
    ensures Chain(es + [e], ws + [ExecuteJob(e.job, now, conds, ws[|es|]).world], now, conds)
  {
    var es', ws' := es + [e], ws + [ExecuteJob(e.job, now, conds, ws[|es|]).world];
    forall i | 0 <= i < |es'|
      ensures es'[i].job < |ws'[i].jobs| && WorldAfter(ws', i) == ExecuteJob(es'[i].job, now, conds, ws'[i]).world
    {
      if i < |es| {
        assert WorldAfter(ws, i) == ws'[i + 1];
      }
    }
  }

  /** The last table of a chain is the replay of its entries on the first. */
  lemma {:induction false} ChainIsReplay(es: seq<Entry>, ws: seq<World>, now: int, conds: nat -> bool)
    requires Chain(es, ws, now, conds)
    ensures forall i :: 0 <= i < |es| ==> es[i].job < |ws[0].jobs|
    ensures |ws[|es|].jobs| == |ws[0].jobs|
    ensures ws[|es|] == Replay(es, now, conds, ws[0])
  {
    if |es| > 0 {
      var n := |es| - 1;
      assert Chain(es[..n], ws[..n + 1], now, conds) by {
        forall i | 0 <= i < n
          ensures es[..n][i].job < |ws[..n + 1][i].jobs|
          ensures WorldAfter(ws[..n + 1], i) == ExecuteJob(es[..n][i].job, now, conds, ws[..n + 1][i]).world
        {
          assert WorldAfter(ws, i) == ws[i + 1] == ws[..n + 1][i + 1];
        }
      }
      ChainIsReplay(es[..n], ws[..n + 1], now, conds);
      assert WorldAfter(ws, n) == ws[|es|];
      assert es[..n] + [es[n]] == es;
    }
  }

  /** What running job `h` on table `w` asks of the queue: `Some(due)` when
      the job is to be queued again, now due at `due`, and `None` otherwise. */
  ghost function RepushOf(h: nat, now: int, conds: nat -> bool, w: World): Option<int>
    requires h < |w.jobs|
  {
    var r := ExecuteJob(h, now, conds, w);
    if r.repush then Some(r.world.jobs[h].ticks) else None
  }

  /** `ds[i]` is what run `i` of the entries `es`, on table `ws[i]`, asked
      of the queue. */
  ghost predicate Requests(es: seq<Entry>, ws: seq<World>, ds: seq<Option<int>>, now: int, conds: nat -> bool)
  {
    && |ds| == |es| && |ws| == |es| + 1
    && forall i | 0 <= i < |es| :: es[i].job < |ws[i].jobs| && ds[i] == RepushOf(es[i].job, now, conds, ws[i])
  }

  /** One more run on the last table adds its own request. */
  lemma RequestsSnoc(es: seq<Entry>, ws: seq<World>, ds: seq<Option<int>>, e: Entry, w: World, now: int, conds: nat -> bool)
    requires Requests(es, ws, ds, now, conds) && e.job < |ws[|es|].jobs|
    ensures Requests(es + [e], ws + [w], ds + [RepushOf(e.job, now, conds, ws[|es|])], now, conds)
  {
    var es', ws', ds' := es + [e], ws + [w], ds + [RepushOf(e.job, now, conds, ws[|es|])];
    forall i | 0 <= i < |es'|
      ensures es'[i].job < |ws'[i].jobs| && ds'[i] == RepushOf(es'[i].job, now, conds, ws'[i])
    {
      if i < |es| {
        assert es'[i] == es[i] && ws'[i] == ws[i] && ds'[i] == ds[i];
      }
    }
  }

  /** The entry a run of job `h` puts back into the queue when it asks
      `d`, under the id after `lastId`. */
  function Requeue(h: nat, d: Option<int>, lastId: nat): (m: multiset<Entry>)
  {
    if d.Some? then multiset{Entry(d.value, h, lastId + 1)} else multiset{}
  }

  /** How many of the runs asked to be queued again. */
  function Asked(ds: seq<Option<int>>): nat
  {
    if |ds| == 0 then 0 else Asked(ds[..|ds| - 1]) + if ds[|ds| - 1].Some? then 1 else 0
  }

  /** Everything the run entries `es` put back into the queue, run `i`
      having asked `ds[i]`, the ids counting up from `lastId`. */
  function Requeues(es: seq<Entry>, ds: seq<Option<int>>, lastId: nat): (m: multiset<Entry>)
    requires |ds| == |es|
  {
    if |es| == 0 then multiset{}
    else
      var n := |es| - 1;
      Requeues(es[..n], ds[..n], lastId) + Requeue(es[n].job, ds[n], lastId + Asked(ds[..n]))
  }

  /** The request of a run, read off its outcome `r`: the job's new due
      time when it asks to be queued again. */
  lemma RepushOfStep(h: nat, now: int, conds: nat -> bool, w: World, r: Step)
    requires h < |w.jobs| && r == ExecuteJob(h, now, conds, w)
    ensures RepushOf(h, now, conds, w) == if r.repush then Some(r.world.jobs[h].ticks) else None
  {
  }

  /** A run that asks to be queued again at `due` puts back exactly the
      entry under the next id; one that does not ask puts back nothing. */
  lemma RequeueCases(h: nat, repush: bool, due: int, lastId: nat)
    ensures Requeue(h, if repush then Some(due) else None, lastId) ==
            if repush then multiset{Entry(due, h, lastId + 1)} else multiset{}
  {
  }

  /** Every entry put back while `es` run is fresh and requested: its id
      follows `lastId`, at most one per run that asked, and it comes from a
      run that asked for its job at its due time. */
  lemma {:induction false} RequeuesFrom(es: seq<Entry>, ds: seq<Option<int>>, lastId: nat)
    requires |ds| == |es|
    ensures forall x | x in Requeues(es, ds, lastId) ::
              && lastId < x.id <= lastId + Asked(ds)
              && exists i :: 0 <= i < |es| && x.job == es[i].job && ds[i] == Some(x.due)
  {
    if |es| > 0 {
      var n := |es| - 1;
      var before := Requeues(es[..n], ds[..n], lastId);
      var last := Requeue(es[n].job, ds[n], lastId + Asked(ds[..n]));
      assert Requeues(es, ds, lastId) == before + last;
      assert Asked(ds) == Asked(ds[..n]) + if ds[n].Some? then 1 else 0;
      RequeuesFrom(es[..n], ds[..n], lastId);
      forall x: Entry | x in before + last
        ensures lastId < x.id <= lastId + Asked(ds)
        ensures exists i :: 0 <= i < |es| && x.job == es[i].job && ds[i] == Some(x.due)
      {
        if x in before {
          var i :| 0 <= i < n && x.job == es[..n][i].job && ds[..n][i] == Some(x.due);
          assert es[i] == es[..n][i] && ds[i] == ds[..n][i];
        } else {
          assert ds[n].Some? && x == Entry(ds[n].value, es[n].job, lastId + Asked(ds[..n]) + 1);
        }
      }
    }
  }

  /** Every run that asked to be queued again has its entry, at the due
      time it asked. */
  lemma {:induction false} RequeuesAll(es: seq<Entry>, ds: seq<Option<int>>, lastId: nat)
    requires |ds| == |es|
    ensures forall i | 0 <= i < |es| && ds[i].Some? ::
              exists x: Entry :: x in Requeues(es, ds, lastId) && x.job == es[i].job && x.due == ds[i].value
  {
    if |es| > 0 {
      var n := |es| - 1;
      var before := Requeues(es[..n], ds[..n], lastId);
      var last := Requeue(es[n].job, ds[n], lastId + Asked(ds[..n]));
      var all := Requeues(es, ds, lastId);
      assert all == before + last;
      RequeuesAll(es[..n], ds[..n], lastId);
      forall i | 0 <= i < |es| && ds[i].Some?
        ensures exists x: Entry :: x in all && x.job == es[i].job && x.due == ds[i].value
      {
        if i < n {
          assert es[..n][i] == es[i] && ds[..n][i] == ds[i];
          var x :| x in before && x.job == es[..n][i].job && x.due == ds[..n][i].value;
          assert x in all;
        } else {
          var x := Entry(ds[n].value, es[n].job, lastId + Asked(ds[..n]) + 1);
          assert x in last;
          assert x in all;
        }
      }
    }
  }

  /** One more run adds its own request, under the id after those the
      earlier runs used. */
  lemma RequeuesSnoc(es: seq<Entry>, ds: seq<Option<int>>, e: Entry, d: Option<int>, lastId: nat, id: nat)
    requires |ds| == |es| && id == lastId + Asked(ds)
    ensures lastId + Asked(ds + [d]) == id + if d.Some? then 1 else 0
    ensures Requeues(es + [e], ds + [d], lastId) == Requeues(es, ds, lastId) + Requeue(e.job, d, id)
  {
    assert (es + [e])[..|es|] == es && (ds + [d])[..|ds|] == ds;
  }

  /** Two entries of a mirroring queue for the same job are the same entry. */
  lemma SameJobSameEntry(m: multiset<Entry>, jobs: seq<Job>, a: Entry, b: Entry)
    requires Mirrors(m, jobs) && a in m && b in m && a.job == b.job
    ensures a == b
  {
    assert JobOf(a) == JobOf(b);
  }

  /** A queue that mirrors the table holds at most one entry per job: once
      the root `e` is taken out and `requeued`, all for `e`'s job, is added,
      the entries for that job are exactly `requeued`. */
  lemma OneEntryPerJob(m: multiset<Entry>, jobs: seq<Job>, lastId: nat, e: Entry, requeued: multiset<Entry>)
    requires Mirrors(m, jobs) && IdsDistinct(m, lastId) && e in m
    requires forall x | x in requeued :: x.job == e.job
    ensures forall x | x in m - multiset{e} + requeued :: x.job == e.job <==> x in requeued
  {
    forall x | x in m - multiset{e} + requeued && x.job == e.job
      ensures x in requeued
    {
      if x !in requeued {
        SameJobSameEntry(m, jobs, x, e);
        assert false;
      }
    }
  }

  /** Adding `a` and `b` and taking `a` out again adds only `b`. */
  lemma TakeBackOne(m: multiset<Entry>, a: Entry, b: Entry)
    ensures m + multiset{a} + multiset{b} - multiset{a} == m + multiset{b}
  {
  }

  class GlobalDispatchTimer {
    var isCalledDestroyed: bool
    var isInited: bool
    var isRunning: bool
    /** `timedJobQueue`. */
    const queue: PriorityQueue
    /** The jobs the queue and the trigger map refer to. */
    const store: JobStore
    var triggerList: seq<DestroyTrigger>
    var triggerMap: map<int, seq<nat>>

    ghost predicate Valid()
      reads this, queue, queue.items, store
    {
      && QueueMirrors()
      && TriggersAgree(triggerList, triggerMap, |store.jobs|)
    }

    /** The queue is a heap whose entries mirror the due times of the table. */
    ghost predicate QueueMirrors()
      reads queue, queue.items, store
    {
      && queue.Valid()
      && IsHeap(queue.items[..queue.size])
      && Mirrors(queue.Contents(), store.jobs)
    }

    /** No entry of the queue names job `h`. */
    ghost predicate Unqueued(h: nat)
      reads this, queue, queue.items
      requires queue.Valid()
    {
      forall e | e in queue.Contents() :: e.job != h
    }

    /** `Awake`: running, with an empty queue of capacity 100 and no triggers. */
    constructor Awake(store: JobStore)
      ensures Valid() && fresh(queue) && fresh(queue.items) && this.store == store
      ensures !isCalledDestroyed && isInited && isRunning
      ensures queue.Contents() == multiset{} && triggerList == [] && triggerMap == map[]
    {
      isCalledDestroyed := false;
      isInited := true;
      queue := new PriorityQueue(100);
      this.store := store;
      triggerList := [];
      triggerMap := map[];
      isRunning := true;
    }

    /** `timedJobQueue.Enqueue(job)`: the entry carries the job's due time and
        the next id. */
    method EnqueueJob(h: nat)
      requires Valid() && h < |store.jobs| && Unqueued(h)
      requires store.jobs[h].kind.Interval? ==> 0 < store.jobs[h].kind.interval
      modifies queue, queue.items
      ensures Valid() && queue.lastId == old(queue.lastId) + 1
      ensures queue.Contents() == old(queue.Contents()) + multiset{Entry(store.jobs[h].ticks, h, queue.lastId)}
      ensures fresh(queue.items) || queue.items == old(queue.items)
    {
      ghost var m := queue.Contents();
      queue.Enqueue(h, store.jobs[h].ticks, 1);
      MirrorsAdd(m, store.jobs, Entry(store.jobs[h].ticks, h, queue.lastId));
    }

    /** `new TimerJob(...)` and its subclasses: a new job, not yet queued. */
    method NewJob(j: Job) returns (h: nat)
      requires Valid()
      modifies store
      ensures Valid() && h == old(|store.jobs|) && store.jobs == old(store.jobs) + [j]
      ensures store.trace == old(store.trace) && Unqueued(h)
    {
      MirrorsExtend(queue.Contents(), store.jobs, j);
      h := store.Add(j);
    }

    /** `PushJob`: a job due at once. */
    method PushJob(timerTask: Action, now: int)
      requires Valid()
      modifies queue, queue.items, store
      ensures Valid()
      ensures store.jobs == old(store.jobs) + [NewTimerJob(timerTask, now)] && store.trace == old(store.trace)
      ensures queue.Contents() == old(queue.Contents()) + multiset{Entry(now, old(|store.jobs|), queue.lastId)}
      ensures fresh(queue.items) || queue.items == old(queue.items)
    {
      var h := NewJob(NewTimerJob(timerTask, now));
      EnqueueJob(h);
    }

    /** `PushTimerJob(Action, float delay)`: refuses a negative delay (null);
        otherwise queues a new job due `delay` after `now` and returns it. */
    method PushTimerJob(timerTask: Action, delay: int, now: int) returns (r: Option<nat>)
      requires Valid()
      modifies queue, queue.items, store
      ensures Valid()
      ensures !ValidateDelay(delay) ==> r.None? && store.jobs == old(store.jobs) && queue.Contents() == old(queue.Contents())
      ensures ValidateDelay(delay) ==> r == Some(old(|store.jobs|))
      ensures ValidateDelay(delay) ==> store.jobs == old(store.jobs) + [NewTimerJob(timerTask, NormalizeTime(now, delay))]
      ensures ValidateDelay(delay) ==>
                queue.Contents() == old(queue.Contents()) + multiset{Entry(NormalizeTime(now, delay), old(|store.jobs|), queue.lastId)}
      ensures store.trace == old(store.trace)
      ensures fresh(queue.items) || queue.items == old(queue.items)
    {
      if !ValidateDelay(delay) {
        return None;
      }
      var h := NewJob(NewTimerJob(timerTask, NormalizeTime(now, delay)));
      ghost var jobs := store.jobs;
      EnqueueJob(h);
      r := Some(h);
      assert store.jobs == jobs;
    }

    /** `PushTimerJob(Action, DateTime)`: refuses an instant that is not in the
        future; otherwise forwards the remaining wall time as the delay. */
    method PushTimerJobAt(timerTask: Action, executeTime: int, wallNow: int, now: int) returns (r: Option<nat>)
      requires Valid()
      modifies queue, queue.items, store
      ensures Valid()
      ensures !ValidateInstant(executeTime, wallNow) ==>
                r.None? && store.jobs == old(store.jobs) && queue.Contents() == old(queue.Contents())
      ensures ValidateInstant(executeTime, wallNow) ==> r == Some(old(|store.jobs|))
      ensures ValidateInstant(executeTime, wallNow) ==>
                store.jobs == old(store.jobs) + [NewTimerJob(timerTask, NormalizeInstant(now, wallNow, executeTime))]
      ensures ValidateInstant(executeTime, wallNow) ==>
                queue.Contents() ==
                old(queue.Contents()) + multiset{Entry(NormalizeInstant(now, wallNow, executeTime), old(|store.jobs|), queue.lastId)}
      ensures store.trace == old(store.trace)
      ensures fresh(queue.items) || queue.items == old(queue.items)
    {
      if !ValidateInstant(executeTime, wallNow) {
        return None;
      }
      AcceptedInstantIsAcceptedDelay(now, wallNow, executeTime);
      r := PushTimerJob(timerTask, executeTime - wallNow, now);
    }

    /** `RegisterTrigger`: binds job `h` to the trigger's key; a key seen for the
        first time also puts the trigger on the watch list. */
    method RegisterTrigger(trigger: DestroyTrigger, h: nat)
      requires Valid() && h < |store.jobs|
      modifies this
      ensures Valid()
      ensures triggerMap.Keys == old(triggerMap.Keys) + {trigger.key}
      ensures trigger.key in old(triggerMap) ==>
                triggerList == old(triggerList) && triggerMap[trigger.key] == old(triggerMap[trigger.key]) + [h]
      ensures trigger.key !in old(triggerMap) ==>
                triggerList == old(triggerList) + [trigger] && triggerMap[trigger.key] == [h]
      ensures forall k | k in old(triggerMap) && k != trigger.key :: triggerMap[k] == old(triggerMap[k])
      ensures isCalledDestroyed == old(isCalledDestroyed) && isInited == old(isInited) && isRunning == old(isRunning)
    {
      TriggersAgreeRegister(triggerList, triggerMap, |store.jobs|, trigger, h);
      if trigger.key in triggerMap {
        triggerMap := triggerMap[trigger.key := triggerMap[trigger.key] + [h]];
      } else {
        Watch(trigger, h);
      }
    }

    /** The branch of `RegisterTrigger` for a key seen for the first time: the
        trigger joins the watch list and `SafetyAdd` gives its key an empty
        list, to which the job is then appended. */
    method Watch(trigger: DestroyTrigger, h: nat)
      requires trigger.key !in triggerMap
      modifies this
      ensures triggerList == old(triggerList) + [trigger]
      ensures triggerMap == old(triggerMap)[trigger.key := [] + [h]]
      ensures isCalledDestroyed == old(isCalledDestroyed) && isInited == old(isInited) && isRunning == old(isRunning)
    {
      triggerList := triggerList + [trigger];
      triggerMap := SafetyAdd(triggerMap, trigger.key, []);
      triggerMap := triggerMap[trigger.key := triggerMap[trigger.key] + [h]];
    }

    /** `PushTimerJob(Action, float delay, GameObject bindTarget)`. The game
        object is given by its `DestroyTrigger` (null for a null object). A
        negative delay or a null object gives null; otherwise a new job due
        `delay` after `now` is bound to the trigger and queued. */
    method PushBoundTimerJob(timerTask: Action, delay: int, bindTarget: DestroyTrigger?, now: int) returns (r: Option<nat>)
      requires Valid()
      modifies this, queue, queue.items, store
      ensures Valid()
      ensures !ValidateDelay(delay) || bindTarget == null ==>
                r.None? && store.jobs == old(store.jobs) && queue.Contents() == old(queue.Contents())
                && triggerMap == old(triggerMap) && triggerList == old(triggerList)
      ensures ValidateDelay(delay) && bindTarget != null ==>
                && r == Some(old(|store.jobs|))
                && store.jobs == old(store.jobs) + [NewTimerJob(timerTask, NormalizeTime(now, delay))]
                && queue.Contents() == old(queue.Contents()) + multiset{Entry(NormalizeTime(now, delay), old(|store.jobs|), queue.lastId)}
                && triggerMap.Keys == old(triggerMap.Keys) + {bindTarget.key}
                && (bindTarget.key in old(triggerMap) ==>
                      triggerList == old(triggerList) && triggerMap[bindTarget.key] == old(triggerMap[bindTarget.key]) + [old(|store.jobs|)])
                && (bindTarget.key !in old(triggerMap) ==>
                      triggerList == old(triggerList) + [bindTarget] && triggerMap[bindTarget.key] == [old(|store.jobs|)])
                && (forall k | k in old(triggerMap) && k != bindTarget.key :: triggerMap[k] == old(triggerMap[k]))
      ensures store.trace == old(store.trace)
      ensures isCalledDestroyed == old(isCalledDestroyed) && isInited == old(isInited) && isRunning == old(isRunning)
      ensures fresh(queue.items) || queue.items == old(queue.items)
    {
      if !ValidateDelay(delay) {
        return None;
      }
      if bindTarget == null {
        return None;
      }
      var h := NewJob(NewTimerJob(timerTask, NormalizeTime(now, delay)));
      ghost var jobs := store.jobs;
      RegisterTrigger(bindTarget, h);
      EnqueueJob(h);
      r := Some(h);
      assert store.jobs == jobs;
    }

    /** `PushTimerJob(Action, DateTime, GameObject bindTarget)`: refuses an
        instant that is not in the future, else forwards the remaining time. */
    method PushBoundTimerJobAt(timerTask: Action, executeTime: int, wallNow: int, bindTarget: DestroyTrigger?, now: int)
      returns (r: Option<nat>)
      requires Valid()
      modifies this, queue, queue.items, store
      ensures Valid()
      ensures !ValidateInstant(executeTime, wallNow) || bindTarget == null ==>
                r.None? && store.jobs == old(store.jobs) && queue.Contents() == old(queue.Contents())
                && triggerMap == old(triggerMap) && triggerList == old(triggerList)
      ensures ValidateInstant(executeTime, wallNow) && bindTarget != null ==>
                && r == Some(old(|store.jobs|))
                && store.jobs == old(store.jobs) + [NewTimerJob(timerTask, NormalizeInstant(now, wallNow, executeTime))]
                && queue.Contents() ==
                   old(queue.Contents()) + multiset{Entry(NormalizeInstant(now, wallNow, executeTime), old(|store.jobs|), queue.lastId)}
                && triggerMap.Keys == old(triggerMap.Keys) + {bindTarget.key}
                && (bindTarget.key in old(triggerMap) ==>
                      triggerList == old(triggerList) && triggerMap[bindTarget.key] == old(triggerMap[bindTarget.key]) + [old(|store.jobs|)])
                && (bindTarget.key !in old(triggerMap) ==>
                      triggerList == old(triggerList) + [bindTarget] && triggerMap[bindTarget.key] == [old(|store.jobs|)])
                && (forall k | k in old(triggerMap) && k != bindTarget.key :: triggerMap[k] == old(triggerMap[k]))
      ensures store.trace == old(store.trace)
      ensures isCalledDestroyed == old(isCalledDestroyed) && isInited == old(isInited) && isRunning == old(isRunning)
      ensures fresh(queue.items) || queue.items == old(queue.items)
    {
      if !ValidateInstant(executeTime, wallNow) {
        return None;
      }
      AcceptedInstantIsAcceptedDelay(now, wallNow, executeTime);
      r := PushBoundTimerJob(timerTask, executeTime - wallNow, bindTarget, now);
    }

    /** `PushTimerJob(TimerJob job)`: queues an existing job as it is, with no
        check of its due time; a null job is ignored. */
    method PushExistingJob(job: Option<nat>)
      requires Valid()
      requires job.Some? ==> job.value < |store.jobs| && Unqueued(job.value)
      requires job.Some? && store.jobs[job.value].kind.Interval? ==> 0 < store.jobs[job.value].kind.interval
      modifies queue, queue.items
      ensures Valid()
      ensures job.None? ==> queue.Contents() == old(queue.Contents())
      ensures job.Some? ==>
                queue.Contents() == old(queue.Contents()) + multiset{Entry(store.jobs[job.value].ticks, job.value, queue.lastId)}
      ensures fresh(queue.items) || queue.items == old(queue.items)
    {
      if job.None? {
        return;
      }
      EnqueueJob(job.value);
    }

    /** `PushTimerJob(TimerJob job, GameObject bindTarget)`: a null job or a
        null object is ignored; otherwise the job is bound and queued. */
    method PushExistingBoundJob(job: Option<nat>, bindTarget: DestroyTrigger?)
      requires Valid()
      requires job.Some? ==> job.value < |store.jobs| && Unqueued(job.value)
      requires job.Some? && store.jobs[job.value].kind.Interval? ==> 0 < store.jobs[job.value].kind.interval
      modifies this, queue, queue.items
      ensures Valid()
      ensures job.None? || bindTarget == null ==>
                queue.Contents() == old(queue.Contents()) && triggerMap == old(triggerMap) && triggerList == old(triggerList)
      ensures job.Some? && bindTarget != null ==>
                && queue.Contents() == old(queue.Contents()) + multiset{Entry(store.jobs[job.value].ticks, job.value, queue.lastId)}
                && triggerMap.Keys == old(triggerMap.Keys) + {bindTarget.key}
                && (bindTarget.key in old(triggerMap) ==>
                      triggerList == old(triggerList) && triggerMap[bindTarget.key] == old(triggerMap[bindTarget.key]) + [job.value])
                && (bindTarget.key !in old(triggerMap) ==>
                      triggerList == old(triggerList) + [bindTarget] && triggerMap[bindTarget.key] == [job.value])
                && (forall k | k in old(triggerMap) && k != bindTarget.key :: triggerMap[k] == old(triggerMap[k]))
      ensures isCalledDestroyed == old(isCalledDestroyed) && isInited == old(isInited) && isRunning == old(isRunning)
      ensures fresh(queue.items) || queue.items == old(queue.items)
    {
      if job.None? {
        return;
      }
      if bindTarget == null {
        return;
      }
      RegisterTrigger(bindTarget, job.value);
      EnqueueJob(job.value);
    }

    /** `ExpirableIntervalTask(...)`: a new interval task, not queued, whose
        `Dispose` is queued at the expiry time (a negative expiry is refused
        by the push and leaves the task without an expiry). */
    method NewExpirableIntervalTask(task: Action, cond: Option<nat>, endTask: Action, delay: int, interval: int,
                                    expire: int, startImmediately: bool, now: int) returns (h: nat)
      requires Valid()
      modifies queue, queue.items, store
      ensures Valid() && h == old(|store.jobs|) && Unqueued(h)
      ensures |store.jobs| == if ValidateDelay(expire) then h + 2 else h + 1
      ensures store.jobs[..h] == old(store.jobs)
      ensures store.jobs[h] == NewIntervalTask(task, cond, endTask, delay, interval, startImmediately, now)
      ensures !ValidateDelay(expire) ==> queue.Contents() == old(queue.Contents())
      ensures ValidateDelay(expire) ==>
                && store.jobs[h + 1] == NewTimerJob(DisposeJob(h), NormalizeTime(now, expire))
                && queue.Contents() == old(queue.Contents()) + multiset{Entry(NormalizeTime(now, expire), h + 1, queue.lastId)}
      ensures store.trace == old(store.trace)
      ensures fresh(queue.items) || queue.items == old(queue.items)
    {
      h := NewJob(NewIntervalTask(task, cond, endTask, delay, interval, startImmediately, now));
      ghost var jobs := store.jobs;
      ghost var c := queue.Contents();
      var _ := PushTimerJob(DisposeJob(h), expire, now);
      if ValidateDelay(expire) {
        assert store.jobs == jobs + [NewTimerJob(DisposeJob(h), NormalizeTime(now, expire))];
        assert store.jobs[..h] == jobs[..h];
        assert forall e | e in queue.Contents() :: e in c || e.job == h + 1;
      } else {
        assert store.jobs == jobs && queue.Contents() == c;
      }
    }

    method DisposeBound(refs: seq<nat>)
      requires forall h | h in refs :: h < |store.jobs|
      modifies store
      ensures |store.jobs| == old(|store.jobs|) && store.trace == old(store.trace)
      ensures forall h :: 0 <= h < |store.jobs| ==>
                store.jobs[h] == if h in refs then MarkDisposed(old(store.jobs[h])) else old(store.jobs[h])
    {
      ghost var w0 := store.State();
      assert forall h | h in refs :: h < |w0.jobs|;
      var r := 0;
      while r < |refs|
        invariant 0 <= r <= |refs|
        invariant |store.jobs| == |w0.jobs| && store.trace == w0.trace
        invariant forall h :: 0 <= h < |w0.jobs| ==>
                    store.jobs[h] == if h in refs[..r] then MarkDisposed(w0.jobs[h]) else w0.jobs[h]
      {
        assert refs[..r + 1] == refs[..r] + [refs[r]] && refs[r] in refs;
        store.MarkDisposed(refs[r]);
        r := r + 1;
      }
      assert refs[..r] == refs;
    }

    /** The second half of the sweep: the jobs bound to each marked key are
        marked disposed (`TryGetValue`, then `MarkDisposed` on each live
        reference) and the key leaves the map. */
    method DisposeMarked(marked: seq<int>)
      requires forall k, h | k in triggerMap && h in triggerMap[k] :: h < |store.jobs|
      modifies this, store
      ensures triggerMap == Without(old(triggerMap), marked) && triggerList == old(triggerList)
      ensures store.State() == DisposeAll(old(store.State()), Doomed(old(triggerMap), marked))
      ensures isCalledDestroyed == old(isCalledDestroyed) && isInited == old(isInited) && isRunning == old(isRunning)
    {
      ghost var m0 := triggerMap;
      ghost var w0 := store.State();
      var n := 0;
      while n < |marked|
        invariant 0 <= n <= |marked|
        invariant triggerMap == Without(m0, marked[..n]) && triggerList == old(triggerList)
        invariant |store.jobs| == |w0.jobs| && store.trace == w0.trace
        invariant forall h :: 0 <= h < |w0.jobs| ==>
                    store.jobs[h] == if h in Doomed(m0, marked[..n]) then MarkDisposed(w0.jobs[h]) else w0.jobs[h]
        invariant isCalledDestroyed == old(isCalledDestroyed) && isInited == old(isInited) && isRunning == old(isRunning)
      {
        var key := marked[n];
        assert marked[..n + 1] == marked[..n] + [key];
        if key in triggerMap {
          var refs := triggerMap[key];
          assert refs == m0[key];
          ghost var before := store.jobs;
          DisposeBound(refs);
          triggerMap := triggerMap - {key};
          forall h | 0 <= h < |w0.jobs|
            ensures h in Doomed(m0, marked[..n + 1]) <==> h in Doomed(m0, marked[..n]) || h in refs
          {
            if h in Doomed(m0, marked[..n + 1]) {
              var k :| k in marked[..n + 1] && k in m0 && h in m0[k];
              if k != key {
                assert k in marked[..n];
              }
            }
          }
        } else {
          forall h | 0 <= h < |w0.jobs|
            ensures h in Doomed(m0, marked[..n + 1]) <==> h in Doomed(m0, marked[..n])
          {
            if h in Doomed(m0, marked[..n + 1]) {
              var k :| k in marked[..n + 1] && k in m0 && h in m0[k];
              assert k != key || key in marked[..n];
            }
          }
        }
        n := n + 1;
      }
      assert marked[..n] == marked;
      assert store.jobs == DisposeAll(w0, Doomed(m0, marked)).jobs;
    }

    /** `CheckDestroyedGameObject` as written. Removing the current node from
        the linked list clears its `Next`, so the walk ends at the first
        destroyed trigger: one trigger at most is handled per frame. */
    method CheckDestroyedGameObject()
      requires Valid()
      modifies this, store
      ensures Valid()
      ensures var acts := old(Activity(triggerList));
              && triggerList == WalkKept(old(triggerList), acts)
              && triggerMap == Without(old(triggerMap), WalkKeys(old(triggerList), acts))
              && store.State() == DisposeAll(old(store.State()), Doomed(old(triggerMap), WalkKeys(old(triggerList), acts)))
      ensures isCalledDestroyed == old(isCalledDestroyed) && isInited == old(isInited) && isRunning == old(isRunning)
    {
      if |triggerList| == 0 {
        assert Doomed(triggerMap, []) == {};
        assert store.State() == DisposeAll(store.State(), {});
        assert triggerMap == Without(triggerMap, []);
      } else {
        WalkAndDispose();
      }
    }

    /** The body of `CheckDestroyedGameObject` when some trigger is watched:
        the walk, then the cancel loop over the marked keys. */
    method WalkAndDispose()
      requires Valid() && 0 < |triggerList|
      modifies this, store
      ensures Valid()
      ensures var acts := old(Activity(triggerList));
              && triggerList == WalkKept(old(triggerList), acts)
              && triggerMap == Without(old(triggerMap), WalkKeys(old(triggerList), acts))
              && store.State() == DisposeAll(old(store.State()), Doomed(old(triggerMap), WalkKeys(old(triggerList), acts)))
      ensures isCalledDestroyed == old(isCalledDestroyed) && isInited == old(isInited) && isRunning == old(isRunning)
    {
      ghost var acts := Activity(triggerList);
      ghost var w0 := store.State();
      ghost var ts0, m0 := triggerList, triggerMap;
      var markedList := WalkTriggers();
      DisposeMarked(markedList);
      WalkKeepsValid(ts0, m0, w0, acts);
    }

    /** The state one frame's walk leaves behind is again valid. */
    lemma WalkKeepsValid(ts0: seq<DestroyTrigger>, m0: map<int, seq<nat>>, w0: World, acts: seq<bool>)
      requires queue.Valid() && IsHeap(queue.items[..queue.size]) && Mirrors(queue.Contents(), w0.jobs)
      requires TriggersAgree(ts0, m0, |w0.jobs|) && |acts| == |ts0|
      requires triggerList == WalkKept(ts0, acts) && triggerMap == Without(m0, WalkKeys(ts0, acts))
      requires store.State() == DisposeAll(w0, Doomed(m0, WalkKeys(ts0, acts)))
      ensures Valid()
    {
      TriggersAgreeWalk(ts0, m0, |w0.jobs|, acts);
      MirrorsKeep(queue.Contents(), w0.jobs, store.jobs);
    }

    /** The `while` walk of `CheckDestroyedGameObject`: it stops after the
        first destroyed trigger, which it takes off the list and whose key it
        marks. */
    method WalkTriggers() returns (markedList: seq<int>)
      requires 0 < |triggerList|
      modifies this
      ensures var acts := old(Activity(triggerList));
              markedList == WalkKeys(old(triggerList), acts) && triggerList == WalkKept(old(triggerList), acts)
      ensures triggerMap == old(triggerMap)
      ensures isCalledDestroyed == old(isCalledDestroyed) && isInited == old(isInited) && isRunning == old(isRunning)
    {
      ghost var acts := Activity(triggerList);
      ghost var ts := triggerList;
      markedList := [];
      var i := 0;
      while i < |triggerList|
        invariant 0 <= i <= |triggerList|
        invariant triggerList == ts && markedList == []
        invariant forall j :: 0 <= j < i ==> acts[j]
      {
        var trigger := triggerList[i];
        if !trigger.isActivated {
          markedList := markedList + [trigger.key];
          triggerList := triggerList[..i] + triggerList[i + 1..];
          assert FirstInactive(acts) == i;
          break;
        }
        i := i + 1;
      }
      assert markedList == [] ==> FirstInactive(acts) == -1;
    }

    /** `Stop`. */
    method Stop()
      modifies this
      ensures !isRunning
      ensures isCalledDestroyed == old(isCalledDestroyed) && isInited == old(isInited)
      ensures triggerList == old(triggerList) && triggerMap == old(triggerMap)
    {
      isRunning := false;
    }

    /** `Resume`. */
    method Resume()
      modifies this
      ensures isRunning
      ensures isCalledDestroyed == old(isCalledDestroyed) && isInited == old(isInited)
      ensures triggerList == old(triggerList) && triggerMap == old(triggerMap)
    {
      isRunning := true;
    }

    /** `Reset`: drops every queued job and every trigger; the jobs themselves
        are untouched, so a dropped job simply never runs. */
    method Reset()
      requires Valid()
      modifies this, queue
      ensures Valid() && fresh(queue.items)
      ensures queue.Contents() == multiset{} && triggerList == [] && triggerMap == map[]
      ensures isCalledDestroyed == old(isCalledDestroyed) && isInited == old(isInited) && isRunning == old(isRunning)
    {
      queue.Clear();
      triggerList := [];
      triggerMap := map[];
    }

    /** `Count`: the number of queued jobs. */
    function Count(): (n: nat)
      reads this, queue, queue.items, store
      requires Valid()
      ensures n == |queue.Contents()|
    {
      queue.Count()
    }

    /** `Status`. */
    function Status(): (s: GdtStatus)
      reads this
      ensures s == UNINITIALIZED <==> !isInited
      ensures s == RUNNING <==> isInited && isRunning
      ensures s == STOP <==> isInited && !isRunning
    {
      if !isInited then UNINITIALIZED else if isRunning then RUNNING else STOP
    }

    /** `LateUpdate`, once per frame with the dispatcher clock at `now`: after
        `OnDestroy` or while stopped it does nothing; otherwise it walks the
        triggers as `CheckDestroyedGameObject` is written (the first destroyed
        one leaves the list and the jobs bound to it are marked disposed), and
        then runs every entry due at `now`, in queue order, on that table. */
    method LateUpdate(now: int, conds: nat -> bool)
      returns (ghost executed: seq<Entry>, ghost ws: seq<World>, ghost asked: seq<Option<int>>)
      requires Valid()
      modifies this, queue, queue.items, store
      ensures Valid()
      ensures isCalledDestroyed == old(isCalledDestroyed) && isInited == old(isInited) && isRunning == old(isRunning)
      ensures old(isCalledDestroyed || !isRunning) ==>
                && executed == [] && queue.Contents() == old(queue.Contents())
                && triggerList == old(triggerList) && triggerMap == old(triggerMap) && store.State() == old(store.State())
      ensures old(!isCalledDestroyed && isRunning) ==>
                var acts := old(Activity(triggerList));
                var dead := WalkKeys(old(triggerList), acts);
                var swept := DisposeAll(old(store.State()), Doomed(old(triggerMap), dead));
                && triggerList == WalkKept(old(triggerList), acts)
                && triggerMap == Without(old(triggerMap), dead)
                && (forall e | e in queue.Contents() :: now < e.due)
                && (forall e :: e in executed <==> e in old(queue.Contents()) && e.due <= now)
                && Ascending(executed)
                && (forall e | e in old(queue.Contents()) && now < e.due :: e in queue.Contents())
                && (forall i :: 0 <= i < |executed| ==> executed[i].job < |swept.jobs|)
                && store.State() == Replay(executed, now, conds, swept)
                && Chain(executed, ws, now, conds) && ws[0] == swept
                && Requests(executed, ws, asked, now, conds)
                && queue.Contents() + multiset(executed) == old(queue.Contents()) + Requeues(executed, asked, old(queue.lastId))
                && queue.lastId == old(queue.lastId) + Asked(asked)
    {
      if isCalledDestroyed || !isRunning {
        return [], [store.State()], [];
      }
      CheckDestroyedGameObject();
      executed, ws, asked := RunDueJobs(now, conds);
    }

    /** `OnDestroy`: `Reset`, then the dispatcher is marked destroyed and no
        longer initialized or running, so later frames do nothing. */
    method OnDestroy()
      requires Valid()
      modifies this, queue
      ensures Valid() && fresh(queue.items)
      ensures queue.Contents() == multiset{} && triggerList == [] && triggerMap == map[]
      ensures isCalledDestroyed && !isInited && !isRunning
    {
      Reset();
      isCalledDestroyed := true;
      isInited := false;
      isRunning := false;
    }

    /** The `while` loop of `LateUpdate`: while the root job is due, run it
        (an exception is caught and logged) and then dequeue it. An interval
        job that reschedules itself is queued again from inside its own
        `Execute`, after moving its own due time, so the entry still at the
        root sees the new time before `Dequeue` removes it.

        `executed` lists the entries run, in the order they ran: exactly the
        entries that were due at `now`, in queue order. Afterwards nothing due
        is left, every entry not due is still queued, and the jobs and the
        trace are those of running the executed jobs one after another. */
    method RunDueJobs(now: int, conds: nat -> bool)
      returns (ghost executed: seq<Entry>, ghost ws: seq<World>, ghost asked: seq<Option<int>>)
      requires Valid()
      modifies queue, queue.items, store
      ensures Valid()
      ensures forall e | e in queue.Contents() :: now < e.due
      ensures forall e :: e in executed <==> e in old(queue.Contents()) && e.due <= now
      ensures Ascending(executed)
      ensures forall e | e in old(queue.Contents()) && now < e.due :: e in queue.Contents()
      ensures forall i :: 0 <= i < |executed| ==> executed[i].job < old(|store.jobs|)
      ensures store.State() == Replay(executed, now, conds, old(store.State()))
      ensures Chain(executed, ws, now, conds) && ws[0] == old(store.State())
      ensures Requests(executed, ws, asked, now, conds)
      ensures queue.Contents() + multiset(executed) == old(queue.Contents()) + Requeues(executed, asked, old(queue.lastId))
      ensures queue.lastId == old(queue.lastId) + Asked(asked)
      ensures fresh(queue.items) || queue.items == old(queue.items)
    {
      ghost var c0 := queue.Contents();
      ghost var id0 := queue.lastId;
      ghost var added;
      executed, ws, asked, added := DrainDue(now, conds);
      DrainFinished(c0, added, executed, ws, now, conds, asked, id0);
    }

    /** The loop of `RunDueJobs`: runs the root while it is due. `added`
        collects the entries the runs put back. */
    method DrainDue(now: int, conds: nat -> bool)
      returns (ghost executed: seq<Entry>, ghost ws: seq<World>, ghost asked: seq<Option<int>>, ghost added: multiset<Entry>)
      requires Valid()
      modifies queue, queue.items, store
      ensures Draining(old(queue.Contents()), added, executed, ws, now, conds) && ws[0] == old(store.State())
      ensures Requested(added, executed, ws, asked, old(queue.lastId), now, conds)
      ensures forall x | x in queue.Contents() :: now < x.due
      ensures fresh(queue.items) || queue.items == old(queue.items)
    {
      ghost var c0 := queue.Contents();
      ghost var id0 := queue.lastId;
      ws := [store.State()];
      asked := [];
      added := multiset{};
      executed := [];
      while queue.Count() > 0
        invariant Draining(c0, added, executed, ws, now, conds)
        invariant ws[0] == old(store.State())
        invariant Requested(added, executed, ws, asked, id0, now, conds)
        invariant fresh(queue.items) || queue.items == old(queue.items)
        decreases DueSet(queue.Contents(), now)
      {
        var stop, e := PeekDue(now);
        if stop {
          break;
        }
        ghost var requeued, a := RunDue(c0, added, executed, ws, asked, id0, e, now, conds);
        executed := executed + [e];
        asked := asked + [a];
        added := added + requeued;
        ws := ws + [store.State()];
      }
      assert queue.size == 0 ==> queue.items[..queue.size] == [];
    }

    /** The loop of `RunDueJobs` has ended with nothing due left in the queue:
        what ran is exactly the due part of the queue it started from, in
        queue order, and the table is the replay of those runs. */
    lemma DrainFinished(c0: multiset<Entry>, added: multiset<Entry>, executed: seq<Entry>, ws: seq<World>, now: int, conds: nat -> bool,
                        asked: seq<Option<int>>, id0: nat)
      requires Draining(c0, added, executed, ws, now, conds)
      requires forall x | x in queue.Contents() :: now < x.due
      requires |asked| == |executed| && added == Requeues(executed, asked, id0)
      ensures queue.Contents() + multiset(executed) == c0 + Requeues(executed, asked, id0)
      ensures forall x :: x in executed <==> x in c0 && x.due <= now
      ensures Ascending(executed)
      ensures forall x | x in c0 && now < x.due :: x in queue.Contents()
      ensures forall i :: 0 <= i < |executed| ==> executed[i].job < |ws[0].jobs|
      ensures store.State() == Replay(executed, now, conds, ws[0])
    {
      DrainDone(c0, added, executed, queue.Contents(), now);
      ChainIsReplay(executed, ws, now, conds);
    }

    /** The bookkeeping of the `LateUpdate` loop over this dispatcher: `w0` is
        the table the loop started from and `executed` have run on it. */
    ghost predicate Draining(c0: multiset<Entry>, added: multiset<Entry>, executed: seq<Entry>, ws: seq<World>, now: int, conds: nat -> bool)
      reads this, queue, queue.items, store
    {
      && Valid()
      && Drained(c0, added, executed, queue.Contents(), now)
      && Chain(executed, ws, now, conds)
      && store.State() == ws[|executed|]
    }

    /** The head of one turn of the loop: `Peek`, and stop when the root is
        not yet due, in which case nothing in the queue is due; otherwise the
        root `e` is due and no entry comes before it. */
    method PeekDue(now: int) returns (stop: bool, e: Entry)
      requires Valid() && 0 < queue.size
      ensures stop ==> forall x | x in queue.Contents() :: now < x.due
      ensures !stop ==> && e == queue.items[0] && e in queue.Contents() && e.due <= now
                        && forall x | x in queue.Contents() :: !Before(x, e)
    {
      var top := queue.Peek();
      e := top.value;
      assert queue.items[..queue.size][0] == e;
      HeapRootIsMinimal(queue.items[..queue.size]);
      stop := now < store.jobs[e.job].ticks;
    }

    /** The rest of one turn once the root `e` is due: run it and carry the
        bookkeeping over; fewer due entries remain. */
    method RunDue(ghost c0: multiset<Entry>, ghost added: multiset<Entry>, ghost executed: seq<Entry>,
                  ghost ws: seq<World>, ghost asks: seq<Option<int>>, ghost id0: nat, e: Entry, now: int, conds: nat -> bool)
      returns (ghost requeued: multiset<Entry>, ghost asked: Option<int>)
      requires Draining(c0, added, executed, ws, now, conds) && 0 < queue.size
      requires Requested(added, executed, ws, asks, id0, now, conds)
      requires e == queue.items[0] && e in queue.Contents() && e.due <= now
      requires forall x | x in queue.Contents() :: !Before(x, e)
      modifies queue, queue.items, store
      ensures fresh(queue.items) || queue.items == old(queue.items)
      ensures Draining(c0, added + requeued, executed + [e], ws + [store.State()], now, conds)
      ensures Requested(added + requeued, executed + [e], ws + [store.State()], asks + [asked], id0, now, conds)
      ensures DueSet(queue.Contents(), now) < DueSet(old(queue.Contents()), now)
      ensures asked == RepushOf(e.job, now, conds, old(store.State()))
      ensures requeued == Requeue(e.job, asked, old(queue.lastId))
      ensures queue.lastId == old(queue.lastId) + if asked.Some? then 1 else 0
    {
      ghost var c := queue.Contents();
      ChainSnoc(executed, ws, e, now, conds);
      ghost var id := queue.lastId;
      requeued := RunRoot(e, now, conds);
      asked := RepushOf(e.job, now, conds, ws[|executed|]);
      DrainStep(c0, added, executed, c, id, e, requeued, queue.Contents(), now);
      RequestsSnoc(executed, ws, asks, e, store.State(), now, conds);
      RequeuesSnoc(executed, asks, e, asked, id0, id);
    }

    /** The requests the runs `executed` made, on the tables `ws`, are
        `asks`, and `added` holds exactly the entries they put back, under
        the ids after `id0`. */
    ghost predicate Requested(added: multiset<Entry>, executed: seq<Entry>, ws: seq<World>, asks: seq<Option<int>>, id0: nat,
                              now: int, conds: nat -> bool)
      reads queue
    {
      && Requests(executed, ws, asks, now, conds)
      && added == Requeues(executed, asks, id0)
      && queue.lastId == id0 + Asked(asks)
    }

    /** The body of one turn of the `LateUpdate` loop once the root `e` is due:
        `Execute` on the root job inside `try`, then `Dequeue` in `finally`. A
        job that asked to be queued again goes back into the queue, due one
        interval after `now`, under a fresh id. */
    method RunRoot(e: Entry, now: int, conds: nat -> bool) returns (ghost requeued: multiset<Entry>)
      requires Valid() && 0 < queue.size && queue.items[0] == e && e.job < |store.jobs|
      modifies queue, queue.items, store
      ensures Valid()
      ensures queue.Contents() == old(queue.Contents()) - multiset{e} + requeued
      ensures requeued == Requeue(e.job, RepushOf(e.job, now, conds, old(store.State())), old(queue.lastId))
      ensures queue.lastId == old(queue.lastId) + if RepushOf(e.job, now, conds, old(store.State())).Some? then 1 else 0
      ensures forall x | x in requeued :: now < x.due && x.job == e.job
      ensures forall x | x in queue.Contents() :: x.job == e.job <==> x in requeued
      ensures store.State() == ExecuteJob(e.job, now, conds, old(store.State())).world
      ensures fresh(queue.items) || queue.items == old(queue.items)
    {
      ghost var rq;
      var repush, due;
      assert queue.items[..queue.size][0] == e;
      repush, due, rq := ExecuteRoot(e, now, conds);
      ghost var w := store.State();
      requeued := FinishRoot(e, repush, due);
      assert requeued == rq && store.State() == w;
      OneEntryPerJob(old(queue.Contents()), old(store.jobs), old(queue.lastId), e, requeued);
    }

    /** The `try` of one turn: `Execute` on the root job `e`. Since only that
        job's due time can move, the rest of the queue still mirrors the
        table; a job that asks to be queued again is due after `now`. */
    method ExecuteRoot(e: Entry, now: int, conds: nat -> bool) returns (repush: bool, due: int, ghost requeued: multiset<Entry>)
      requires queue.size <= queue.items.Length && e in queue.Contents() && e.job < |store.jobs|
      requires Mirrors(queue.Contents(), store.jobs) && IdsDistinct(queue.Contents(), queue.lastId)
      modifies store
      ensures store.State() == ExecuteJob(e.job, now, conds, old(store.State())).world
      ensures repush == ExecuteJob(e.job, now, conds, old(store.State())).repush
      ensures |store.jobs| == old(|store.jobs|) && due == store.jobs[e.job].ticks
      ensures requeued == if repush then multiset{Entry(due, e.job, queue.lastId + 1)} else multiset{}
      ensures Mirrors(queue.Contents() - multiset{e} + requeued, store.jobs)
      ensures forall x | x in requeued :: now < x.due && x.job == e.job
      ensures RepushOf(e.job, now, conds, old(store.State())) == if repush then Some(due) else None
    {
      ghost var c := queue.Contents();
      ghost var w := store.State();
      ghost var r := ExecuteJob(e.job, now, conds, w);
      var threw;
      repush, threw := store.Execute(e.job, now, conds);
      assert store.jobs == r.world.jobs && repush == r.repush;
      due := store.jobs[e.job].ticks;
      requeued := if repush then multiset{Entry(due, e.job, queue.lastId + 1)} else multiset{};
      RequeueMirrors(c, queue.lastId, w, e, now, r, requeued);
      RepushOfStep(e.job, now, conds, w, r);
    }

    /** The `finally` of one turn: the root entry `e` has run. When its job
        asked to be queued again, it has already moved its due time to `due`,
        which the root's comparison sees, and has been queued under a fresh id
        from inside its `Execute`; then `Dequeue` takes the root out. */
    method FinishRoot(e: Entry, repush: bool, due: int) returns (ghost requeued: multiset<Entry>)
      requires queue.Valid() && IsHeap(queue.items[..queue.size]) && 0 < queue.size && queue.items[0] == e
      modifies queue, queue.items
      ensures queue.Valid() && IsHeap(queue.items[..queue.size])
      ensures requeued == if repush then multiset{Entry(due, e.job, old(queue.lastId) + 1)} else multiset{}
      ensures queue.Contents() == old(queue.Contents()) - multiset{e} + requeued
      ensures queue.lastId == old(queue.lastId) + if repush then 1 else 0
      ensures requeued == Requeue(e.job, if repush then Some(due) else None, old(queue.lastId))
      ensures fresh(queue.items) || queue.items == old(queue.items)
    {
      if repush {
        ghost var c := queue.Contents();
        var x := queue.RescheduleRoot(due);
        requeued := multiset{x};
        ghost var moved := e.(due := due);
        assert queue.Contents() == (c - multiset{e}) + multiset{moved} + multiset{x};
        var top := queue.Dequeue();
        assert top == moved;
        TakeBackOne(c - multiset{e}, moved, x);
      } else {
        requeued := multiset{};
        var top := queue.Dequeue();
        assert queue.Contents() == old(queue.Contents()) - multiset{e} + requeued;
      }
      RequeueCases(e.job, repush, due, old(queue.lastId));
    }
  }
}
