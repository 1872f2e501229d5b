/** The suite matrix scheduler: shared tasks in bounded concurrent batches, exclusive tasks alone. */
module Matrix {
  import opened Machine

  datatype Task = Task(exclusive: bool)

  /** What happens, in time order: a task starts, or a running task ends. */
  datatype Event = Start(task: nat) | End(task: nat)

  // ----- What a history of events means -----

  ghost function Ended(h: seq<Event>): set<nat> {
    if h == [] then {} else
      var before := Ended(h[..|h| - 1]);
      match h[|h| - 1]
      case Start(_) => before
      case End(t) => before + {t}
  }

  ghost function Running(h: seq<Event>): set<nat> {
    if h == [] then {} else
      var before := Running(h[..|h| - 1]);
      match h[|h| - 1]
      case Start(t) => before + {t}
      case End(t) => before - {t}
  }

  ghost function FirstTasks(n: nat): (r: set<nat>)
    ensures forall t: nat :: t in r <==> t < n
  {
    if n == 0 then {} else FirstTasks(n - 1) + {n - 1}
  }

  /** The most tasks that are flushed together. */
  function BatchSize(jobs: int): nat {
    Max(1, 2 * jobs)
  }

  /** The event may happen after `h`: a task starts only once and ends only while it runs; never
      more than max(1, jobs) run; an exclusive task starts when exactly the tasks before it have
      ended and nothing runs; a shared task starts when no exclusive task runs, every exclusive
      task before it has ended, and so has every task that is max(1, 2 * jobs) or more before it. */
  ghost predicate Allowed(tasks: seq<Task>, jobs: int, h: seq<Event>, e: Event) {
    match e
    case End(t) => t in Running(h)
    case Start(t) =>
      && t < |tasks| && t !in Running(h) && t !in Ended(h)
      && |Running(h)| < Max(1, jobs)
      && (tasks[t].exclusive ==> Running(h) == {} && Ended(h) == FirstTasks(t))
      && (!tasks[t].exclusive ==>
            && (forall r: nat :: r in Running(h) && r < |tasks| ==> !tasks[r].exclusive)
            && (forall r: nat :: r < t && tasks[r].exclusive ==> r in Ended(h))
            && (forall r: nat :: r + BatchSize(jobs) <= t ==> r in Ended(h)))
  }

  ghost predicate Disciplined(tasks: seq<Task>, jobs: int, h: seq<Event>) {
    h == [] || (Disciplined(tasks, jobs, h[..|h| - 1]) && Allowed(tasks, jobs, h[..|h| - 1], h[|h| - 1]))
  }

  /** After `h` the first n tasks have ended and nothing runs. */
  ghost predicate Idle(tasks: seq<Task>, jobs: int, h: seq<Event>, n: nat) {
    Disciplined(tasks, jobs, h) && Running(h) == {} && Ended(h) == FirstTasks(n)
  }

  lemma Snoc(tasks: seq<Task>, jobs: int, h: seq<Event>, e: Event)
    requires Disciplined(tasks, jobs, h) && Allowed(tasks, jobs, h, e)
    ensures Disciplined(tasks, jobs, h + [e])
    ensures Running(h + [e]) == (if e.Start? then Running(h) + {e.task} else Running(h) - {e.task})
    ensures Ended(h + [e]) == (if e.Start? then Ended(h) else Ended(h) + {e.task})
  {
    assert (h + [e])[..|h + [e]| - 1] == h;
  }

  // ----- Return codes -----

  function MaxCode(codes: seq<int>): int {
    if codes == [] then 0 else Max(MaxCode(codes[..|codes| - 1]), codes[|codes| - 1])
  }

  // ----- Executors that raise -----

  /** No task before `n` raises. */
  ghost predicate Clear(raising: set<nat>, n: nat) {
    forall t :: t in raising ==> n <= t
  }

  /** The run was ended by an exception of a task from lo on: the tasks before n have ended and no other was
      started; beyond the task itself, only the rest of a pool's batch. */
  ghost predicate StoppedBy(tasks: seq<Task>, jobs: int, raising: set<nat>, h: seq<Event>, lo: nat, n: nat) {
    && lo < n <= |tasks| && n - lo <= BatchSize(jobs) && Idle(tasks, jobs, h, n) && Clear(raising, lo)
    && (exists t :: t in raising && lo <= t < n)
    && (n == lo + 1 || (1 < jobs && forall t :: lo <= t < n ==> !tasks[t].exclusive))
  }

  ghost predicate Stopped(tasks: seq<Task>, jobs: int, raising: set<nat>, h: seq<Event>) {
    exists lo: nat, n: nat :: StoppedBy(tasks, jobs, raising, h, lo, n)
  }

  // ----- Running tasks -----

  /** One task, run to its end by the calling thread. */
  method RunAlone(tasks: seq<Task>, jobs: int, t: nat, h: seq<Event>) returns (h': seq<Event>)
    requires t < |tasks| && Idle(tasks, jobs, h, t)
    ensures Idle(tasks, jobs, h', t + 1)
  {
    Snoc(tasks, jobs, h, Start(t));
    h' := h + [Start(t)];
    Snoc(tasks, jobs, h', End(t));
    h' := h' + [End(t)];
    assert FirstTasks(t + 1) == FirstTasks(t) + {t};
  }

  /** A pool that runs the shared tasks lo, ..., hi - 1: `next` is the first one not started, and
      what has been started either runs or has ended. */
  ghost predicate PoolSets(running: set<nat>, ended: set<nat>, jobs: int, lo: nat, next: nat, hi: nat) {
    && lo <= next <= hi && |running| <= Max(1, jobs)
    && (forall t :: t in running ==> lo <= t < next)
    && (forall t :: t in ended ==> t < next)
    && (forall t: nat :: t < next ==> (t in running) != (t in ended))
  }

  ghost predicate Pool(tasks: seq<Task>, jobs: int, h: seq<Event>, lo: nat, next: nat, hi: nat) {
    hi <= |tasks| && Disciplined(tasks, jobs, h) && PoolSets(Running(h), Ended(h), jobs, lo, next, hi)
  }

  lemma SubmitSets(running: set<nat>, ended: set<nat>, jobs: int, lo: nat, next: nat, hi: nat)
    requires PoolSets(running, ended, jobs, lo, next, hi) && next < hi && |running| < Max(1, jobs)
    ensures PoolSets(running + {next}, ended, jobs, lo, next + 1, hi)
  {
  }

  lemma CompleteSets(running: set<nat>, ended: set<nat>, jobs: int, lo: nat, next: nat, hi: nat, t: nat)
    requires PoolSets(running, ended, jobs, lo, next, hi) && t in running
    ensures PoolSets(running - {t}, ended + {t}, jobs, lo, next, hi)
  {
  }

  /** The thread pool: submitted tasks start in order while a worker is free, and any running task
      may be the next to end.  Both choices are left open. Once a task has raised, no more codes are
      collected, but the pool is closed only when all its tasks have ended. */
  method RunPool(tasks: seq<Task>, jobs: int, lo: nat, hi: nat, h: seq<Event>, codes: seq<int>, raising: set<nat>)
    returns (h': seq<Event>, localMax: Option<int>)
    requires lo <= hi <= |tasks| == |codes| && Idle(tasks, jobs, h, lo) && Clear(raising, lo)
    requires hi - lo <= BatchSize(jobs) && forall t :: lo <= t < hi ==> !tasks[t].exclusive
    ensures Idle(tasks, jobs, h', hi)
    ensures localMax == if Clear(raising, hi) then Some(MaxCode(codes[lo..hi])) else None
  {
    h', localMax := h, Some(0);
    PoolOpens(tasks, jobs, h, lo, hi);
    var next := lo;
    var running: set<nat> := {};
    while next < hi || running != {}
      invariant Pool(tasks, jobs, h', lo, next, hi)
      invariant running == Running(h')
      invariant localMax.Some? <==> Ended(h') !! raising
      invariant localMax.Some? ==> IsMaxOf(localMax.value, codes, lo, Ended(h'))
      decreases hi - next, |running|
    {
      if {
        case next < hi && |running| < Max(1, jobs) =>
          Submit(tasks, jobs, h', lo, next, hi);
          h', running, next := h' + [Start(next)], running + {next}, next + 1;
        case running != {} =>
          var t :| t in running;
          Complete(tasks, jobs, h', lo, next, hi, t);
          if localMax.Some? { Collect(localMax.value, codes, lo, Ended(h'), t); }
          h', running := h' + [End(t)], running - {t};
          if t in raising {
            localMax := None;
          } else if localMax.Some? && codes[t] > localMax.value {
            localMax := Some(codes[t]);
          }
      }
    }
    Drained(tasks, jobs, h', lo, hi);
    assert Ended(h') !! raising <==> Clear(raising, hi);
    if localMax.Some? { BatchMax(codes, lo, hi, localMax.value); }
  }

  lemma Drained(tasks: seq<Task>, jobs: int, h: seq<Event>, lo: nat, hi: nat)
    requires Pool(tasks, jobs, h, lo, hi, hi) && Running(h) == {}
    ensures Ended(h) == FirstTasks(hi) && Idle(tasks, jobs, h, hi)
  {
    forall t: nat ensures t in Ended(h) <==> t in FirstTasks(hi) {
    }
  }

  lemma PoolOpens(tasks: seq<Task>, jobs: int, h: seq<Event>, lo: nat, hi: nat)
    requires lo <= hi <= |tasks| && Idle(tasks, jobs, h, lo)
    ensures Pool(tasks, jobs, h, lo, lo, hi)
  {
  }

  /** m is the largest of 0 and the codes of the tasks of the set from lo on. */
  ghost predicate IsMaxOf(m: int, codes: seq<int>, lo: nat, ts: set<nat>) {
    && (forall t :: t in ts && lo <= t ==> t < |codes| && codes[t] <= m)
    && m >= 0 && (m > 0 ==> exists t :: t in ts && lo <= t < |codes| && codes[t] == m)
  }

  lemma Collect(m: int, codes: seq<int>, lo: nat, ts: set<nat>, t: nat)
    requires IsMaxOf(m, codes, lo, ts) && lo <= t < |codes|
    ensures IsMaxOf(Max(m, codes[t]), codes, lo, ts + {t})
  {
    if codes[t] > m {
      assert t in ts + {t};
    } else if m > 0 {
      var r :| r in ts && lo <= r < |codes| && codes[r] == m;
      assert r in ts + {t};
    }
  }

  lemma Submit(tasks: seq<Task>, jobs: int, h: seq<Event>, lo: nat, next: nat, hi: nat)
    requires Pool(tasks, jobs, h, lo, next, hi) && next < hi && |Running(h)| < Max(1, jobs)
    requires hi - lo <= BatchSize(jobs) && forall t :: lo <= t < hi ==> !tasks[t].exclusive
    ensures Pool(tasks, jobs, h + [Start(next)], lo, next + 1, hi)
    ensures Running(h + [Start(next)]) == Running(h) + {next} && Ended(h + [Start(next)]) == Ended(h)
  {
    SubmitSets(Running(h), Ended(h), jobs, lo, next, hi);
    Snoc(tasks, jobs, h, Start(next));
  }

  lemma Complete(tasks: seq<Task>, jobs: int, h: seq<Event>, lo: nat, next: nat, hi: nat, t: nat)
    requires Pool(tasks, jobs, h, lo, next, hi) && t in Running(h)
    ensures Pool(tasks, jobs, h + [End(t)], lo, next, hi)
    ensures Running(h + [End(t)]) == Running(h) - {t} && Ended(h + [End(t)]) == Ended(h) + {t}
  {
    CompleteSets(Running(h), Ended(h), jobs, lo, next, hi, t);
    Snoc(tasks, jobs, h, End(t));
  }

  /** The maximum does not depend on the order in which codes come in. */
  lemma BatchMax(codes: seq<int>, lo: nat, hi: nat, m: int)
    requires lo <= hi <= |codes| && IsMaxOf(m, codes, lo, FirstTasks(hi))
    ensures m == MaxCode(codes[lo..hi])
  {
    var s := codes[lo..hi];
    MaxCodeBounds(s);
    forall i | 0 <= i < |s| ensures s[i] <= m { assert s[i] == codes[lo + i] && lo + i in FirstTasks(hi); }
    if m > 0 {
      var t :| t in FirstTasks(hi) && lo <= t < |codes| && codes[t] == m;
      assert s[t - lo] == m;
    }
  }

  lemma {:induction false} MaxCodeBounds(s: seq<int>)
    ensures MaxCode(s) >= 0 && forall i :: 0 <= i < |s| ==> s[i] <= MaxCode(s)
    ensures MaxCode(s) > 0 ==> MaxCode(s) in s
    decreases |s|
  {
    if s != [] {
      MaxCodeBounds(s[..|s| - 1]);
      assert s == s[..|s| - 1] + [s[|s| - 1]];
    }
  }

  lemma {:induction false} MaxCodeConcat(s: seq<int>, t: seq<int>)
    ensures MaxCode(s + t) == Max(MaxCode(s), MaxCode(t))
    decreases |t|
  {
    if t == [] {
      MaxCodeBounds(s);
      assert s + t == s;
    } else {
      MaxCodeConcat(s, t[..|t| - 1]);
      assert (s + t)[..|s + t| - 1] == s + t[..|t| - 1];
    }
  }

  // ----- The scheduler -----

  /** The collected batch: consecutive shared tasks from lo on. */
  ghost predicate SharedBatch(tasks: seq<Task>, batch: seq<nat>, lo: int) {
    && 0 <= lo && lo + |batch| <= |tasks|
    && forall k :: 0 <= k < |batch| ==> batch[k] == lo + k && !tasks[batch[k]].exclusive
  }

  /** `flush_shared`: the collected batch, one by one or through the pool. */
  method FlushShared(tasks: seq<Task>, jobs: int, batch: seq<nat>, lo: nat, h: seq<Event>, codes: seq<int>,
                     raising: set<nat>)
    returns (h': seq<Event>, localMax: Option<int>)
    requires SharedBatch(tasks, batch, lo) && |batch| <= BatchSize(jobs) && |tasks| == |codes|
    requires Idle(tasks, jobs, h, lo) && Clear(raising, lo)
    ensures localMax.Some? <==> Clear(raising, lo + |batch|)
    ensures localMax.Some? ==>
              Idle(tasks, jobs, h', lo + |batch|) && localMax.value == MaxCode(codes[lo..lo + |batch|])
    ensures localMax.None? ==> Stopped(tasks, jobs, raising, h')
  {
    if batch == [] {
      assert codes[lo..lo] == [];
      return h, Some(0);
    }
    if jobs <= 1 || |batch| == 1 {
      h', localMax := RunInTurn(tasks, jobs, batch, lo, h, codes, raising);
    } else {
      forall t | lo <= t < lo + |batch| ensures !tasks[t].exclusive { assert batch[t - lo] == t; }
      h', localMax := RunPool(tasks, jobs, lo, lo + |batch|, h, codes, raising);
      if localMax.None? { assert StoppedBy(tasks, jobs, raising, h', lo, lo + |batch|); }
    }
  }

  /** The next task alone, and the update of the maximum that follows it. */
  method RunNext(tasks: seq<Task>, jobs: int, lo: nat, t: nat, h: seq<Event>, codes: seq<int>, raising: set<nat>,
                 rc: int)
    returns (h': seq<Event>, rc': Option<int>)
    requires lo <= t < |tasks| == |codes| && Idle(tasks, jobs, h, t) && Clear(raising, t)
    requires rc == MaxCode(codes[lo..t])
    ensures rc'.Some? <==> Clear(raising, t + 1)
    ensures rc'.Some? ==> Idle(tasks, jobs, h', t + 1) && rc'.value == MaxCode(codes[lo..t + 1])
    ensures rc'.None? ==> Stopped(tasks, jobs, raising, h')
  {
    h' := RunAlone(tasks, jobs, t, h);
    if t in raising {
      assert StoppedBy(tasks, jobs, raising, h', t, t + 1);
      return h', None;
    }
    BatchMaxNext(codes, lo, t - lo);
    rc' := Some(if codes[t] > rc then codes[t] else rc);
  }

  /** The batch one task after the other. */
  method RunInTurn(tasks: seq<Task>, jobs: int, batch: seq<nat>, lo: nat, h: seq<Event>, codes: seq<int>,
                   raising: set<nat>)
    returns (h': seq<Event>, localMax: Option<int>)
    requires SharedBatch(tasks, batch, lo) && |batch| <= BatchSize(jobs) && |tasks| == |codes|
    requires Idle(tasks, jobs, h, lo) && Clear(raising, lo)
    ensures localMax.Some? <==> Clear(raising, lo + |batch|)
    ensures localMax.Some? ==>
              Idle(tasks, jobs, h', lo + |batch|) && localMax.value == MaxCode(codes[lo..lo + |batch|])
    ensures localMax.None? ==> Stopped(tasks, jobs, raising, h')
  {
    h', localMax := h, Some(0);
    assert codes[lo..lo] == [];
    for k := 0 to |batch|
      invariant Idle(tasks, jobs, h', lo + k) && Clear(raising, lo + k)
      invariant localMax == Some(MaxCode(codes[lo..lo + k]))
    {
      h', localMax := RunNext(tasks, jobs, lo, batch[k], h', codes, raising, localMax.value);
      if localMax.None? { return; }
    }
  }

  lemma BatchMaxNext(codes: seq<int>, lo: nat, k: nat)
    requires lo + k < |codes|
    ensures MaxCode(codes[lo..lo + k + 1]) == Max(MaxCode(codes[lo..lo + k]), codes[lo + k])
  {
    assert codes[lo..lo + k + 1][..k] == codes[lo..lo + k];
  }

  /** `execute_matrix_tasks`. Every history the pool can produce is disciplined and leaves nothing running. If no
      task raises, it is complete, and the returned code is the largest of 0 and all task codes, however the tasks
      were batched; otherwise the call raises. */
  method ExecuteMatrixTasks(tasks: seq<Task>, jobs: int, codes: seq<int>, raising: set<nat>)
    returns (h: seq<Event>, maxRc: Option<int>)
    requires |codes| == |tasks|
    ensures maxRc == if Clear(raising, |tasks|) then Some(MaxCode(codes)) else None
    ensures if maxRc.Some? then Idle(tasks, jobs, h, |tasks|) else Stopped(tasks, jobs, raising, h)
  {
    h, maxRc := [], Some(0);
    var batch: seq<nat> := [];
    assert codes[0..0] == [];
    var i := 0;
    while i < |tasks|
      invariant 0 <= i <= |tasks| && |batch| <= i && |batch| < BatchSize(jobs)
      invariant SharedBatch(tasks, batch, i - |batch|)
      invariant Idle(tasks, jobs, h, i - |batch|) && Clear(raising, i - |batch|)
      invariant maxRc == Some(MaxCode(codes[0..i - |batch|]))
    {
      h, batch, maxRc := Take(tasks, jobs, batch, i, h, codes, raising, maxRc.value);
      if maxRc.None? { return; }
      i := i + 1;
    }
    h, maxRc := Flush(tasks, jobs, batch, i - |batch|, h, codes, raising, maxRc.value);
    assert codes[0..|tasks|] == codes;
  }

  /** One turn of the loop: an exclusive task runs behind the shared ones collected before it; a shared task
      joins the batch, which is flushed when it is long enough. */
  method Take(tasks: seq<Task>, jobs: int, batch: seq<nat>, i: nat, h: seq<Event>, codes: seq<int>,
              raising: set<nat>, rc: int)
    returns (h': seq<Event>, batch': seq<nat>, rc': Option<int>)
    requires |batch| <= i < |tasks| == |codes| && SharedBatch(tasks, batch, i - |batch|) && |batch| < BatchSize(jobs)
    requires Idle(tasks, jobs, h, i - |batch|) && Clear(raising, i - |batch|) && rc == MaxCode(codes[0..i - |batch|])
    ensures |batch'| <= i + 1 && SharedBatch(tasks, batch', i + 1 - |batch'|) && |batch'| < BatchSize(jobs)
    ensures rc'.Some? ==>
              && Idle(tasks, jobs, h', i + 1 - |batch'|) && Clear(raising, i + 1 - |batch'|)
              && rc'.value == MaxCode(codes[0..i + 1 - |batch'|])
    ensures rc'.None? ==> Stopped(tasks, jobs, raising, h')
  {
    if tasks[i].exclusive {
      batch' := [];
      h', rc' := Flush(tasks, jobs, batch, i - |batch|, h, codes, raising, rc);
      if rc'.None? { return; }
      h', rc' := RunNext(tasks, jobs, 0, i, h', codes, raising, rc'.value);
    } else {
      h', batch', rc' := h, batch + [i], Some(rc);
      if |batch'| >= jobs * 2 {
        h', rc' := Flush(tasks, jobs, batch', i + 1 - |batch'|, h, codes, raising, rc);
        batch' := [];
      }
    }
  }

  /** A flush and the update of the running maximum that follows each one. */
  method Flush(tasks: seq<Task>, jobs: int, batch: seq<nat>, lo: nat, h: seq<Event>, codes: seq<int>,
               raising: set<nat>, rc: int)
    returns (h': seq<Event>, rc': Option<int>)
    requires SharedBatch(tasks, batch, lo) && |batch| <= BatchSize(jobs) && |tasks| == |codes|
    requires Idle(tasks, jobs, h, lo) && Clear(raising, lo)
    requires rc == MaxCode(codes[0..lo])
    ensures rc'.Some? <==> Clear(raising, lo + |batch|)
    ensures rc'.Some? ==> Idle(tasks, jobs, h', lo + |batch|) && rc'.value == MaxCode(codes[0..lo + |batch|])
    ensures rc'.None? ==> Stopped(tasks, jobs, raising, h')
  {
    h', rc' := FlushShared(tasks, jobs, batch, lo, h, codes, raising);
    if rc'.None? { return; }
    if rc'.value <= rc { rc' := Some(rc); }
    assert codes[0..lo + |batch|] == codes[0..lo] + codes[lo..lo + |batch|];
    MaxCodeConcat(codes[0..lo], codes[lo..lo + |batch|]);
  }

  // ----- What discipline means -----

  /** Also a run that is ended by an exception leaves nothing running, and some task of it has raised. */
  lemma StoppedIsDisciplined(tasks: seq<Task>, jobs: int, raising: set<nat>, h: seq<Event>)
    requires Stopped(tasks, jobs, raising, h)
    ensures Disciplined(tasks, jobs, h) && Running(h) == {} && exists t :: t in raising && t in Ended(h)
  {
    var lo: nat, n: nat :| StoppedBy(tasks, jobs, raising, h, lo, n);
    var t :| t in raising && lo <= t < n;
    assert t in Ended(h);
  }

  /** Each task starts once and ends once. */
  lemma {:induction false} EachOnce(tasks: seq<Task>, jobs: int, h: seq<Event>, t: nat)
    requires Disciplined(tasks, jobs, h)
    ensures multiset(h)[End(t)] == (if t in Ended(h) then 1 else 0)
    ensures multiset(h)[Start(t)] == (if t in Ended(h) || t in Running(h) then 1 else 0)
    ensures !(t in Ended(h) && t in Running(h))
    decreases |h|
  {
    if h != [] {
      EachOnce(tasks, jobs, h[..|h| - 1], t);
      assert h == h[..|h| - 1] + [h[|h| - 1]];
    }
  }

  /** At no moment do more than max(1, jobs) tasks run, and an exclusive task never shares. */
  lemma {:induction false} NeverTooMany(tasks: seq<Task>, jobs: int, h: seq<Event>)
    requires Disciplined(tasks, jobs, h)
    ensures |Running(h)| <= Max(1, jobs)
    ensures forall t :: t in Running(h) ==> t < |tasks| && (tasks[t].exclusive ==> Running(h) == {t})
    decreases |h|
  {
    if h != [] { NeverTooMany(tasks, jobs, h[..|h| - 1]); }
  }

  /** While an exclusive task runs, and when it has just ended, exactly the tasks before it have
      ended; so all earlier tasks come before it and all later ones after. */
  lemma {:induction false} ExclusiveInOrder(tasks: seq<Task>, jobs: int, h: seq<Event>, t: nat)
    requires Disciplined(tasks, jobs, h) && t < |tasks| && tasks[t].exclusive
    ensures t in Running(h) ==> Ended(h) == FirstTasks(t)
    ensures t in Ended(h) ==> FirstTasks(t) <= Ended(h)
    ensures t !in Running(h) && t !in Ended(h) ==> forall r :: r in Ended(h) || r in Running(h) ==> r < t
    decreases |h|
  {
    if h != [] {
      var before := h[..|h| - 1];
      ExclusiveInOrder(tasks, jobs, before, t);
      NeverTooMany(tasks, jobs, before);
    }
  }

  /** The exit code is 0 exactly when no code is positive; it tells success from failure exactly when
      some code is positive or none is negative. */
  lemma ZeroMeansSuccess(codes: seq<int>)
    ensures MaxCode(codes) == 0 <==> forall i :: 0 <= i < |codes| ==> codes[i] <= 0
    ensures (MaxCode(codes) == 0 <==> AllZero(codes))
       <==> (exists i :: 0 <= i < |codes| && codes[i] > 0) || (forall i :: 0 <= i < |codes| ==> codes[i] >= 0)
  {
    MaxCodeBounds(codes);
  }

  ghost predicate AllZero(codes: seq<int>) {
    forall i :: 0 <= i < |codes| ==> codes[i] == 0
  }

  /** The scheduler on a single task that was killed by a signal, so that its code is negative: the task
      has run, and the exit code is 0. */
  method RunKilledTask(task: Task, jobs: int, code: int) returns (h: seq<Event>, rc: Option<int>)
    requires code < 0
    ensures 0 in Ended(h) && rc == Some(0)
  {
    h, rc := ExecuteMatrixTasks([task], jobs, [code], {});
    ZeroMeansSuccess([code]);
  }
}
