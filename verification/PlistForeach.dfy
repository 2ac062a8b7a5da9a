/** What the worker threads of lib/plist.c achieve together: they terminate under every
    schedule, never overflow the shared counter, and do what the sequential routine
    does. */
module PlistForeach {
  import opened Sequences
  import opened Wrappers
  import opened PlistThreads

  // ---------------------------------------------------------------------
  // The shared counter
  // ---------------------------------------------------------------------

  /** A worker that found the array exhausted. */
  predicate Over(count: nat, k: Worker) {
    (k.pc == Unlock || k.pc == Returned) && !k.stopped && count <= k.i
  }

  function Excess(count: nat, slice: nat, ws: seq<Worker>): (n: nat)
    ensures n <= |ws| * slice
  {
    if ws == [] then 0
    else
      var n := |ws| - 1;
      assert |ws| * slice == n * slice + slice;
      Excess(count, slice, ws[..n]) + if Over(count, ws[n]) then slice else 0
  }

  lemma {:induction false} ExcessUpdate(count: nat, slice: nat, ws: seq<Worker>, w: nat, k: Worker)
    requires w < |ws|
    ensures Excess(count, slice, ws[w := k]) + (if Over(count, ws[w]) then slice else 0)
      == Excess(count, slice, ws) + if Over(count, k) then slice else 0
  {
    var n := |ws| - 1;
    if w < n {
      ExcessUpdate(count, slice, ws[..n], w, k);
      assert ws[w := k][..n] == ws[..n][w := k];
    } else {
      assert ws[w := k][..n] == ws[..n];
    }
  }

  predicate CounterOk(job: Job, s: State) {
    s.reserved <= job.Count() + job.slice + Excess(job.Count(), job.slice, s.workers)
  }

  lemma StepCounter(job: Job, s: State, step: Step)
    requires JobOk(job) && Inv(job, s) && CounterOk(job, s) && Enabled(job, s, step)
    ensures CounterOk(job, Next(job, s, step))
  {
    var s' := Next(job, s, step);
    if step.Create? {
      assert s'.workers[..|s.workers|] == s.workers;
    } else {
      assert WorkerOk(job, s, step.w);
      ExcessUpdate(job.Count(), job.slice, s.workers, step.w, s'.workers[step.w]);
    }
  }

  lemma {:induction false} RunCounter(job: Job, run: seq<State>, steps: seq<Step>, n: nat)
    requires JobOk(job) && IsRun(job, run, steps) && n < |run|
    ensures Inv(job, run[n]) && CounterOk(job, run[n])
  {
    RunInv(job, run, steps, n);
    if n > 0 {
      RunCounter(job, run, steps, n - 1);
      StepCounter(job, run[n - 1], steps[n - 1]);
    }
  }

  function Bound(job: Job): nat {
    job.Count() + job.slice + job.threads * job.slice
  }

  /** The counter stays below the element count plus one slice for each worker and one
      more, so 32 bits hold it for every array that short of their range. */
  lemma CounterBounded(job: Job, run: seq<State>, steps: seq<Step>, n: nat)
    requires JobOk(job) && IsRun(job, run, steps) && n < |run|
    ensures run[n].reserved <= Bound(job)
  {
    RunCounter(job, run, steps, n);
    Scale(job.slice, |run[n].workers|, job.threads);
  }

  // ---------------------------------------------------------------------
  // Every schedule ends
  // ---------------------------------------------------------------------

  function Phase(k: Worker): nat {
    match k.pc
    case Unlock => 6
    case Slice => 5
    case Wait => 4
    case Read => 3
    case Write => 2
    case Returned => 0
  }

  function Phases(ws: seq<Worker>): nat {
    if ws == [] then 0 else Phases(ws[..|ws| - 1]) + Phase(ws[|ws| - 1])
  }

  lemma {:induction false} PhasesUpdate(ws: seq<Worker>, w: nat, k: Worker)
    requires w < |ws|
    ensures Phases(ws[w := k]) + Phase(ws[w]) == Phases(ws) + Phase(k)
  {
    var n := |ws| - 1;
    if w < n {
      PhasesUpdate(ws[..n], w, k);
      assert ws[w := k][..n] == ws[..n][w := k];
    } else {
      assert ws[w := k][..n] == ws[..n];
    }
  }

  /** What is left to do: creations, visits, reservations and the positions of the
      workers. */
  function Potential(job: Job, s: State): int {
    6 * (job.threads - |s.workers|) + (if s.creating then 1 else 0)
    + (job.Count() - |s.visited|)
    + 6 * (Bound(job) - s.reserved)
    + Phases(s.workers)
  }

  lemma StepDescends(job: Job, s: State, step: Step)
    requires JobOk(job) && Inv(job, s) && Enabled(job, s, step)
    ensures Potential(job, Next(job, s, step)) < Potential(job, s)
  {
    var s' := Next(job, s, step);
    if step.Create? {
      assert s'.workers == s.workers || s'.workers[..|s.workers|] == s.workers;
    } else {
      assert WorkerOk(job, s, step.w);
      PhasesUpdate(s.workers, step.w, s'.workers[step.w]);
    }
  }

  lemma {:induction false} RunDescends(job: Job, run: seq<State>, steps: seq<Step>, n: nat)
    requires JobOk(job) && IsRun(job, run, steps) && n < |run|
    ensures Potential(job, run[n]) + n <= Potential(job, Start(job))
  {
    if n > 0 {
      RunInv(job, run, steps, n - 1);
      RunDescends(job, run, steps, n - 1);
      StepDescends(job, run[n - 1], steps[n - 1]);
    }
  }

  /** No schedule runs forever. */
  lemma RunsEnd(job: Job, run: seq<State>, steps: seq<Step>)
    requires JobOk(job) && IsRun(job, run, steps)
    ensures |steps| <= 6 * job.threads + 1 + 7 * job.Count() + 6 * job.slice
  {
    var n := |steps|;
    var s := run[n];
    RunDescends(job, run, steps, n);
    AtMostOnce(job, run, steps, n);
    CounterBounded(job, run, steps, n);
    forall i | 0 <= i < |s.visited| ensures s.visited[i] in Range(job.Count()) {
      assert s.visited[i] in s.visited;
    }
    DistinctWithin(s.visited, Range(job.Count()));
    RunInv(job, run, steps, n);
  }

  /** No schedule gets stuck: until everything has returned, some step is possible. */
  lemma NeverStuck(job: Job, run: seq<State>, steps: seq<Step>) returns (step: Step)
    requires JobOk(job) && IsRun(job, run, steps) && !Finished(job, run[|steps|])
    ensures Enabled(job, run[|steps|], step)
  {
    var s := run[|steps|];
    RunInv(job, run, steps, |steps|);
    if s.creating && |s.workers| < job.threads {
      step := Create(true);
    } else {
      var w :| 0 <= w < |s.workers| && s.workers[w].pc != Returned;
      var v := if s.lock.Some? then s.lock.value else w;
      assert WorkerOk(job, s, w) && WorkerOk(job, s, v);
      step := match s.workers[v].pc
        case Slice =>
          if s.workers[v].i < s.workers[v].end && s.workers[v].i < job.Count() then Visit(v, 0, false) else SliceEnds(v)
        case Wait => Acquire(v)
        case Read => ReadReserved(v)
        case Write => WriteReserved(v)
        case Unlock => Release(v)
        case Returned => Create(false);
    }
  }

  // ---------------------------------------------------------------------
  // The calls, against the sequential routine
  // ---------------------------------------------------------------------

  /** The indices that reach the callback: internal keys are skipped. */
  function Keep(internal: seq<bool>, q: seq<nat>): (r: seq<nat>) {
    if q == [] then []
    else
      var j := q[|q| - 1];
      Keep(internal, q[..|q| - 1]) + if j < |internal| && internal[j] then [] else [j]
  }

  function Indices(calls: seq<Call>): seq<nat> {
    seq(|calls|, n requires 0 <= n < |calls| => calls[n].index)
  }

  lemma KeepMore(internal: seq<bool>, q: seq<nat>, j: nat)
    ensures Keep(internal, q + [j]) == Keep(internal, q) + if j < |internal| && internal[j] then [] else [j]
  {
    assert (q + [j])[..|q|] == q;
  }

  lemma IndicesMore(calls: seq<Call>, c: Call)
    ensures Indices(calls + [c]) == Indices(calls) + [c.index]
  {
  }

  ghost predicate Returns(calls: seq<Call>, rc: int) {
    exists c <- calls :: c.rc == rc
  }

  ghost predicate Carried(ws: seq<Worker>, rc: int) {
    exists w :: 0 <= w < |ws| && ws[w].rc == rc
  }

  /** The codes the workers carry are the codes other than 0 that calls returned. */
  ghost predicate CodesOk(ws: seq<Worker>, calls: seq<Call>) {
    forall rc :: rc != 0 ==> (Returns(calls, rc) <==> Carried(ws, rc))
  }

  /** The log of calls is the log of visits without the internal keys. */
  ghost predicate CallsOk(job: Job, s: State) {
    Indices(s.calls) == Keep(job.internal, s.visited) && CodesOk(s.workers, s.calls)
  }

  lemma CarriedUpdate(ws: seq<Worker>, w: nat, k: Worker, rc: int)
    requires w < |ws| && ws[w].rc == 0 && rc != 0
    ensures Carried(ws[w := k], rc) <==> Carried(ws, rc) || k.rc == rc
  {
    if Carried(ws, rc) {
      var v :| 0 <= v < |ws| && ws[v].rc == rc;
      assert ws[w := k][v].rc == rc;
    }
    if k.rc == rc {
      assert ws[w := k][w].rc == rc;
    }
  }

  lemma CarriedSame(ws: seq<Worker>, ws': seq<Worker>, rc: int)
    requires |ws| <= |ws'| <= |ws| + 1 && rc != 0
    requires forall w :: 0 <= w < |ws| ==> ws'[w].rc == ws[w].rc
    requires |ws'| > |ws| ==> ws'[|ws|].rc == 0
    ensures Carried(ws', rc) <==> Carried(ws, rc)
  {
    if Carried(ws, rc) {
      var v :| 0 <= v < |ws| && ws[v].rc == rc;
      assert ws'[v].rc == rc;
    }
  }

  lemma ReturnsMore(calls: seq<Call>, c: Call, rc: int)
    ensures Returns(calls + [c], rc) <==> Returns(calls, rc) || c.rc == rc
  {
    var more := calls + [c];
    assert forall d <- calls :: d in more;
    assert more[|calls|] in more;
  }

  lemma VisitCodes(ws: seq<Worker>, calls: seq<Call>, w: nat, k: Worker, c: Call)
    requires CodesOk(ws, calls) && w < |ws| && ws[w].rc == 0 && k.rc == c.rc
    ensures CodesOk(ws[w := k], calls + [c])
  {
    forall rc | rc != 0 ensures Returns(calls + [c], rc) <==> Carried(ws[w := k], rc) {
      CarriedUpdate(ws, w, k, rc);
      ReturnsMore(calls, c, rc);
    }
  }

  lemma VisitCalls(job: Job, s: State, w: nat, rc: int, done: bool)
    requires Inv(job, s) && CallsOk(job, s) && Enabled(job, s, Visit(w, rc, done))
    ensures CallsOk(job, Next(job, s, Visit(w, rc, done)))
  {
    assert WorkerOk(job, s, w);
    VisitLogs(job, s, w, rc, done);
  }

  lemma VisitLogs(job: Job, s: State, w: nat, rc: int, done: bool)
    requires CallsOk(job, s) && Enabled(job, s, Visit(w, rc, done)) && s.workers[w].rc == 0
    ensures CallsOk(job, Next(job, s, Visit(w, rc, done)))
  {
    var i := s.workers[w].i;
    var s' := Next(job, s, Visit(w, rc, done));
    if job.internal[i] {
      OtherCodes(s, s');
    } else {
      VisitCodes(s.workers, s.calls, w, s'.workers[w], Call(i, rc));
    }
    LogsAgree(job.internal, s.visited, s.calls, i, rc);
  }

  /** Both logs grow by the index, the log of calls only when it is not internal. */
  lemma LogsAgree(internal: seq<bool>, visited: seq<nat>, calls: seq<Call>, i: nat, rc: int)
    requires i < |internal| && Indices(calls) == Keep(internal, visited)
    ensures internal[i] ==> Indices(calls) == Keep(internal, visited + [i])
    ensures !internal[i] ==> Indices(calls + [Call(i, rc)]) == Keep(internal, visited + [i])
  {
    KeepMore(internal, visited, i);
    IndicesMore(calls, Call(i, rc));
  }

  lemma OtherCodes(s: State, s': State)
    requires CodesOk(s.workers, s.calls) && s'.calls == s.calls
    requires |s.workers| <= |s'.workers| <= |s.workers| + 1
    requires forall w :: 0 <= w < |s.workers| ==> s'.workers[w].rc == s.workers[w].rc
    requires |s'.workers| > |s.workers| ==> s'.workers[|s.workers|].rc == 0
    ensures CodesOk(s'.workers, s'.calls)
  {
    forall rc | rc != 0 ensures Returns(s'.calls, rc) <==> Carried(s'.workers, rc) {
      CarriedSame(s.workers, s'.workers, rc);
    }
  }

  lemma StepCalls(job: Job, s: State, step: Step)
    requires Inv(job, s) && CallsOk(job, s) && Enabled(job, s, step)
    ensures CallsOk(job, Next(job, s, step))
  {
    if step.Visit? {
      VisitCalls(job, s, step.w, step.rc, step.done);
    } else {
      OtherCodes(s, Next(job, s, step));
    }
  }

  lemma {:induction false} RunCalls(job: Job, run: seq<State>, steps: seq<Step>, n: nat)
    requires JobOk(job) && IsRun(job, run, steps) && n < |run|
    ensures CallsOk(job, run[n])
  {
    if n > 0 {
      RunInv(job, run, steps, n - 1);
      RunCalls(job, run, steps, n - 1);
      StepCalls(job, run[n - 1], steps[n - 1]);
    }
  }

  /** lib/plist.c:188-194: the first code in thread order that is not 0. */
  function Result(ws: seq<Worker>): (r: int)
    ensures r == 0 <==> forall w :: 0 <= w < |ws| ==> ws[w].rc == 0
    ensures r != 0 ==> exists w :: 0 <= w < |ws| && ws[w].rc == r
  {
    if ws == [] then 0
    else if ws[0].rc != 0 then ws[0].rc
    else
      assert forall w :: 0 < w < |ws| ==> ws[w] == ws[1..][w - 1];
      assert forall w :: 0 <= w < |ws| - 1 ==> ws[1..][w] == ws[w + 1];
      Result(ws[1..])
  }

  /** The result is 0 exactly when every call returned 0, and otherwise a code that
      some call returned. */
  lemma ResultReports(job: Job, run: seq<State>, steps: seq<Step>)
    requires JobOk(job) && IsRun(job, run, steps)
    ensures var s := run[|steps|]; Result(s.workers) == 0 <==> forall c <- s.calls :: c.rc == 0
    ensures var s := run[|steps|]; Result(s.workers) != 0 ==> Returns(s.calls, Result(s.workers))
  {
    RunCalls(job, run, steps, |steps|);
    var s := run[|steps|];
    assert Result(s.workers) != 0 ==> Carried(s.workers, Result(s.workers));
    forall c | c in s.calls && c.rc != 0 ensures Result(s.workers) != 0 {
      assert Returns(s.calls, c.rc) && Carried(s.workers, c.rc);
    }
  }

  function UpTo(n: nat): (q: seq<nat>)
    ensures |q| == n && forall i :: 0 <= i < n ==> q[i] == i
  {
    seq(n, i => i)
  }

  lemma {:induction false} KeepCounts(internal: seq<bool>, q: seq<nat>, j: nat)
    ensures multiset(Keep(internal, q))[j] == if j < |internal| && internal[j] then 0 else multiset(q)[j]
  {
    if q != [] {
      var n := |q| - 1;
      KeepCounts(internal, q[..n], j);
      assert q == q[..n] + [q[n]];
    }
  }

  lemma {:induction false} UniqueCount(q: seq<nat>, j: nat)
    requires Distinct(q)
    ensures multiset(q)[j] == if j in q then 1 else 0
  {
    if q != [] {
      var n := |q| - 1;
      UniqueCount(q[..n], j);
      assert q == q[..n] + [q[n]];
    }
  }

  /** When every worker was created and none stopped early, the calls are those of the
      sequential routine in some order, and so is the result. */
  lemma SameAsSequential(job: Job, run: seq<State>, steps: seq<Step>)
    requires JobOk(job) && IsRun(job, run, steps)
    requires var s := run[|steps|]; Finished(job, s) && NobodyStopped(s) && |s.workers| == job.threads
    ensures multiset(Indices(run[|steps|].calls)) == multiset(Keep(job.internal, UpTo(job.Count())))
    ensures Result(run[|steps|].workers) == 0
  {
    var s := run[|steps|];
    RunCalls(job, run, steps, |steps|);
    RunInv(job, run, steps, |steps|);
    forall w | 0 <= w < |s.workers| ensures s.workers[w].rc == 0 {
      assert WorkerOk(job, s, w);
    }
    AtMostOnce(job, run, steps, |steps|);
    CompleteIffAllCreated(job, run, steps);
    SameKept(job.internal, s.visited);
  }

  lemma SameKept(internal: seq<bool>, q: seq<nat>)
    requires Distinct(q) && forall j: nat :: j in q <==> j < |internal|
    ensures multiset(Keep(internal, q)) == multiset(Keep(internal, UpTo(|internal|)))
  {
    var all := UpTo(|internal|);
    forall j: nat ensures multiset(Keep(internal, q))[j] == multiset(Keep(internal, all))[j] {
      KeepCounts(internal, q, j);
      KeepCounts(internal, all, j);
      UniqueCount(q, j);
      UniqueCount(all, j);
      assert j < |internal| ==> all[j] == j;
    }
  }

  lemma UpToMore(internal: seq<bool>, i: nat)
    ensures Keep(internal, UpTo(i + 1)) == Keep(internal, UpTo(i)) + if i < |internal| && internal[i] then [] else [i]
  {
    assert UpTo(i + 1) == UpTo(i) + [i];
    KeepMore(internal, UpTo(i), i);
  }

  datatype Outcome = Outcome(rc: int, done: bool) {
    predicate Stops() { rc != 0 || done }
  }

  /** How many elements the sequential routine looks at, from the i-th on: up to and
      including the first that stops it. */
  function Reached(internal: seq<bool>, fn: nat -> Outcome, i: nat): (n: nat)
    requires i <= |internal|
    ensures i <= n <= |internal|
    ensures forall j: nat :: i <= j < n - 1 && !internal[j] ==> !fn(j).Stops()
    ensures n < |internal| ==> n > i && !internal[n - 1] && fn(n - 1).Stops()
    decreases |internal| - i
  {
    if i == |internal| then i
    else if !internal[i] && fn(i).Stops() then i + 1
    else Reached(internal, fn, i + 1)
  }

  /** The code of the last element looked at, or 0 if nothing stopped. */
  function SequentialCode(internal: seq<bool>, fn: nat -> Outcome): int {
    var n := Reached(internal, fn, 0);
    if n > 0 && !internal[n - 1] && fn(n - 1).Stops() then fn(n - 1).rc else 0
  }

  /** When no callback stops, the sequential routine looks at everything. */
  lemma {:induction false} ReachesEnd(internal: seq<bool>, fn: nat -> Outcome, i: nat)
    requires i <= |internal| && forall j: nat :: j < |internal| && !internal[j] ==> !fn(j).Stops()
    ensures Reached(internal, fn, i) == |internal|
    decreases |internal| - i
  {
    if i < |internal| {
      ReachesEnd(internal, fn, i + 1);
    }
  }

  /** lib/plist.c:199-229: calls in order, internal keys skipped, up to the first that
      stops, whose code is returned. */
  method ForeachCb(internal: seq<bool>, fn: nat -> Outcome) returns (r: int, calls: seq<nat>)
    ensures calls == Keep(internal, UpTo(Reached(internal, fn, 0)))
    ensures r == SequentialCode(internal, fn)
    ensures (forall j: nat :: j < |internal| && !internal[j] ==> !fn(j).Stops()) ==>
      calls == Keep(internal, UpTo(|internal|)) && r == 0
  {
    if forall j: nat :: j < |internal| && !internal[j] ==> !fn(j).Stops() {
      ReachesEnd(internal, fn, 0);
    }
    calls := [];
    for i := 0 to |internal|
      invariant calls == Keep(internal, UpTo(i))
      invariant Reached(internal, fn, 0) == Reached(internal, fn, i)
      invariant i > 0 ==> internal[i - 1] || !fn(i - 1).Stops()
    {
      UpToMore(internal, i);
      if internal[i] {
        continue;
      }
      calls := calls + [i];
      if fn(i).Stops() {
        return fn(i).rc, calls;
      }
    }
    return 0, calls;
  }
}
