/** lib/plist.c:59-229: worker threads that share an array by reserving slices of it
    under a mutex, as interleaved steps. */
module PlistThreads {
  import opened Sequences
  import opened Wrappers

  /** An array of `count` elements, of which `internal` marks the keys that start
      with "_XBPS_", shared by `threads` workers in slices of `slice`. */
  datatype Job = Job(internal: seq<bool>, threads: nat, slice: nat) {
    function Count(): nat { |internal| }
  }

  predicate JobOk(job: Job) {
    0 < job.threads && 0 < job.slice && job.threads * job.slice <= job.Count()
  }

  /** lib/plist.c:122-142. */
  function Divide(internal: seq<bool>, maxthreads: nat): (job: Job)
    requires maxthreads > 1 && |internal| > 1
    ensures JobOk(job) && job.internal == internal && job.threads <= maxthreads && job.slice <= 32
    ensures job.threads == maxthreads || job.threads == |internal| < maxthreads
    ensures job.slice == 32 || job.threads * (job.slice + 1) > |internal|
  {
    var count := |internal|;
    if maxthreads >= count then Job(internal, count, 1)
    else
      var share := count / maxthreads;
      DivideFits(count, maxthreads, share, if share > 32 then 32 else share);
      Job(internal, maxthreads, if share > 32 then 32 else share)
  }

  lemma DivideFits(count: nat, threads: nat, share: nat, slice: nat)
    requires 0 < threads < count && share == count / threads && slice <= share
    ensures share > 0 && threads * slice <= count
  {
    assert count == threads * share + count % threads;
    assert threads * slice <= threads * share by { Scale(threads, slice, share); }
  }

  lemma Scale(k: nat, a: nat, b: nat)
    requires a <= b
    ensures k * a <= k * b
  {
    assert k * b == k * a + k * (b - a);
  }

  // ---------------------------------------------------------------------
  // The machine
  // ---------------------------------------------------------------------

  /** Where a worker is: in its slice, waiting for the mutex, the three statements
      it guards, or returned. */
  datatype Pc = Slice | Wait | Read | Write | Unlock | Returned

  datatype Worker = Worker(pc: Pc, i: nat, end: nat, rc: int, stopped: bool)

  datatype Call = Call(index: nat, rc: int)

  datatype State = State(
    workers: seq<Worker>,
    creating: bool,
    reserved: nat,
    lock: Option<nat>,
    visited: seq<nat>,
    calls: seq<Call>
  )

  datatype Step =
    | Create(ok: bool)
    | Visit(w: nat, rc: int, done: bool)
    | SliceEnds(w: nat)
    | Acquire(w: nat)
    | ReadReserved(w: nat)
    | WriteReserved(w: nat)
    | Release(w: nat)

  function Start(job: Job): State {
    State([], true, job.threads * job.slice, None, [], [])
  }

  predicate Enabled(job: Job, s: State, step: Step) {
    if step.Create? then s.creating && |s.workers| < job.threads
    else if step.w >= |s.workers| then false
    else
      var k := s.workers[step.w];
      match step
      case Visit(_, _, _) => k.pc == Slice && k.i < k.end && k.i < job.Count()
      case SliceEnds(_) => k.pc == Slice && !(k.i < k.end && k.i < job.Count())
      case Acquire(_) => k.pc == Wait && s.lock == None
      case ReadReserved(_) => k.pc == Read
      case WriteReserved(_) => k.pc == Write
      case Release(_) => k.pc == Unlock
  }

  function Visited(job: Job, s: State, w: nat, rc: int, done: bool): State
    requires w < |s.workers| && s.workers[w].i < job.Count()
  {
    var k := s.workers[w];
    var s1 := s.(visited := s.visited + [k.i]);
    if job.internal[k.i] then s1.(workers := s.workers[w := k.(i := k.i + 1)])
    else
      s1.(
        calls := s.calls + [Call(k.i, rc)],
        workers := s.workers[w :=
          if rc != 0 || done then k.(pc := Returned, rc := rc, stopped := true) else k.(i := k.i + 1)])
  }

  function Next(job: Job, s: State, step: Step): State
    requires Enabled(job, s, step)
  {
    match step
    case Create(ok) =>
      if ok then
        var at := |s.workers| * job.slice;
        s.(workers := s.workers + [Worker(Slice, at, at + job.slice, 0, false)])
      else s.(creating := false)
    case Visit(w, rc, done) => Visited(job, s, w, rc, done)
    case SliceEnds(w) => s.(workers := s.workers[w := s.workers[w].(pc := Wait)])
    case Acquire(w) => s.(lock := Some(w), workers := s.workers[w := s.workers[w].(pc := Read)])
    case ReadReserved(w) =>
      s.(workers := s.workers[w := s.workers[w].(pc := Write, i := s.reserved, end := s.reserved + job.slice)])
    case WriteReserved(w) =>
      s.(reserved := s.workers[w].end, workers := s.workers[w := s.workers[w].(pc := Unlock)])
    case Release(w) =>
      var k := s.workers[w];
      s.(lock := None, workers := s.workers[w := k.(pc := if k.i < job.Count() then Slice else Returned)])
  }

  predicate IsRun(job: Job, run: seq<State>, steps: seq<Step>) {
    && |run| == |steps| + 1
    && run[0] == Start(job)
    && forall n :: 0 <= n < |steps| ==> Enabled(job, run[n], steps[n]) && run[n + 1] == Next(job, run[n], steps[n])
  }

  /** Every created worker has returned and no more are created: main has joined. */
  predicate Finished(job: Job, s: State) {
    && (!s.creating || |s.workers| == job.threads)
    && forall w :: 0 <= w < |s.workers| ==> s.workers[w].pc == Returned
  }

  // ---------------------------------------------------------------------
  // The invariant
  // ---------------------------------------------------------------------

  /** Worker k still has index j to process, or gave it up by stopping. */
  predicate Holds(k: Worker, j: nat) {
    && (k.pc == Slice || k.pc == Unlock || k.pc == Returned)
    && (if k.stopped then k.i < j else k.i <= j)
    && j < k.end
  }

  /** Index j has been given to some worker: it is in one of the first slices, which
      end at `first`, or was reserved after `base`. */
  predicate Claimed(first: nat, base: nat, reserved: nat, j: nat) {
    j < first || base <= j < reserved
  }

  predicate InGuard(k: Worker) {
    k.pc == Read || k.pc == Write || k.pc == Unlock
  }

  predicate WorkerOk(job: Job, s: State, w: nat)
    requires w < |s.workers|
  {
    var k := s.workers[w];
    && (InGuard(k) <==> s.lock == Some(w))
    && (k.pc == Write ==> k.i == s.reserved && k.end == s.reserved + job.slice)
    && (k.pc == Unlock ==> k.i < s.reserved)
    && (k.pc == Returned && !k.stopped ==> job.Count() <= k.i < s.reserved)
    && (k.stopped ==> k.pc == Returned)
    && (!k.stopped ==> k.rc == 0)
  }

  ghost predicate WorkersOk(job: Job, s: State) {
    && (s.lock.Some? ==> s.lock.value < |s.workers|)
    && forall w :: 0 <= w < |s.workers| ==> WorkerOk(job, s, w)
  }

  ghost predicate Disjoint(ws: seq<Worker>) {
    forall a, b, j: nat :: 0 <= a < b < |ws| && Holds(ws[a], j) ==> !Holds(ws[b], j)
  }

  /** The log has no index twice and none that a worker holds. */
  ghost predicate VisitedOk(count: nat, first: nat, base: nat, s: State) {
    && Distinct(s.visited)
    && (forall j <- s.visited :: j < count && Claimed(first, base, s.reserved, j))
    && (forall j, w :: j in s.visited && 0 <= w < |s.workers| ==> !Holds(s.workers[w], j))
  }

  ghost predicate SomeHolder(ws: seq<Worker>, j: nat) {
    exists w :: 0 <= w < |ws| && Holds(ws[w], j)
  }

  /** What is claimed is processed or held, and the other way round. */
  ghost predicate ClaimsOk(count: nat, first: nat, base: nat, s: State) {
    && (forall w, j: nat :: 0 <= w < |s.workers| && Holds(s.workers[w], j) ==> Claimed(first, base, s.reserved, j))
    && (forall j: nat :: j < count && Claimed(first, base, s.reserved, j) ==>
      j in s.visited || SomeHolder(s.workers, j))
  }

  ghost predicate SharesOk(count: nat, first: nat, base: nat, s: State) {
    && first <= base <= s.reserved
    && Disjoint(s.workers)
    && VisitedOk(count, first, base, s)
    && ClaimsOk(count, first, base, s)
  }

  ghost predicate Inv(job: Job, s: State) {
    && |s.workers| <= job.threads
    && WorkersOk(job, s)
    && SharesOk(job.Count(), |s.workers| * job.slice, job.threads * job.slice, s)
  }

  lemma StartInv(job: Job)
    ensures Inv(job, Start(job))
  {
  }

  /** A new worker takes the next first slice. */
  lemma CreateShares(count: nat, first: nat, slice: nat, base: nat, s: State, s': State)
    requires SharesOk(count, first, base, s) && first + slice <= base
    requires s' == s.(workers := s.workers + [Worker(Slice, first, first + slice, 0, false)])
    ensures SharesOk(count, first + slice, base, s')
  {
    var n := |s.workers|;
    assert forall w, j: nat :: 0 <= w < n ==> Holds(s'.workers[w], j) == Holds(s.workers[w], j);
    forall a, b, j: nat | 0 <= a < b <= n && Holds(s'.workers[a], j) ensures !Holds(s'.workers[b], j) {
      assert Holds(s.workers[a], j) && Claimed(first, base, s.reserved, j);
      assert b < n ==> !Holds(s.workers[b], j);
    }
    forall w, j: nat | 0 <= w <= n && Holds(s'.workers[w], j)
      ensures Claimed(first + slice, base, s'.reserved, j)
    {
      assert w < n ==> Holds(s.workers[w], j) && Claimed(first, base, s.reserved, j);
    }
    forall j: nat | j < count && Claimed(first + slice, base, s'.reserved, j)
      ensures j in s'.visited || SomeHolder(s'.workers, j)
    {
      if first <= j < first + slice {
        assert Holds(s'.workers[n], j);
      } else if j !in s.visited {
        assert SomeHolder(s.workers, j);
        var w :| 0 <= w < n && Holds(s.workers[w], j);
        assert Holds(s'.workers[w], j);
      }
    }
  }

  lemma NextSlice(n: nat, slice: nat, threads: nat)
    requires n < threads
    ensures (n + 1) * slice == n * slice + slice <= threads * slice
  {
    Scale(slice, n + 1, threads);
  }

  lemma CreateInv(job: Job, s: State)
    requires JobOk(job) && Inv(job, s) && Enabled(job, s, Create(true))
    ensures Inv(job, Next(job, s, Create(true)))
  {
    var n := |s.workers|;
    var s' := Next(job, s, Create(true));
    NextSlice(n, job.slice, job.threads);
    forall w | 0 <= w <= n ensures WorkerOk(job, s', w) {
      assert w < n ==> WorkerOk(job, s, w);
    }
    CreateShares(job.Count(), n * job.slice, job.slice, job.threads * job.slice, s, s');
  }

  /** A step of worker w that leaves the log alone keeps the shares when, below the
      end of the array, w holds exactly what it held and what is newly reserved. */
  lemma MoveShares(count: nat, first: nat, base: nat, s: State, s': State, w: nat, k: Worker)
    requires SharesOk(count, first, base, s) && w < |s.workers|
    requires s'.visited == s.visited && s.reserved <= s'.reserved && s'.workers == s.workers[w := k]
    requires forall j: nat :: Holds(k, j) ==> Holds(s.workers[w], j) || s.reserved <= j < s'.reserved
    requires forall j: nat :: j < count && Holds(s.workers[w], j) ==> Holds(k, j)
    requires forall j: nat :: s.reserved <= j < s'.reserved ==> Holds(k, j)
    ensures SharesOk(count, first, base, s')
  {
    forall a, b, j: nat | 0 <= a < b < |s.workers| && Holds(s'.workers[a], j)
      ensures !Holds(s'.workers[b], j)
    {
      assert a != w ==> Claimed(first, base, s.reserved, j);
      assert b != w && Holds(s.workers[b], j) ==> Claimed(first, base, s.reserved, j);
    }
    forall v, j: nat | 0 <= v < |s.workers| && Holds(s'.workers[v], j)
      ensures Claimed(first, base, s'.reserved, j)
    {
      assert Holds(s.workers[v], j) ==> Claimed(first, base, s.reserved, j);
    }
    forall j: nat | j < count && Claimed(first, base, s'.reserved, j)
      ensures j in s'.visited || SomeHolder(s'.workers, j)
    {
      if s.reserved <= j {
        assert Holds(s'.workers[w], j);
      } else if j !in s.visited {
        assert SomeHolder(s.workers, j);
        var v :| 0 <= v < |s.workers| && Holds(s.workers[v], j);
        assert Holds(s'.workers[v], j);
      }
    }
  }

  lemma GuardInv(job: Job, s: State, step: Step)
    requires JobOk(job) && Inv(job, s) && Enabled(job, s, step)
    requires !step.Create? && !step.Visit?
    ensures Inv(job, Next(job, s, step))
  {
    var w := step.w;
    var s' := Next(job, s, step);
    assert WorkerOk(job, s, w);
    forall v | 0 <= v < |s.workers| ensures WorkerOk(job, s', v) {
      assert WorkerOk(job, s, v);
    }
    MoveShares(job.Count(), |s.workers| * job.slice, job.threads * job.slice, s, s', w, s'.workers[w]);
  }

  lemma VisitShares(count: nat, first: nat, base: nat, s: State, s': State, w: nat, i: nat, k: Worker)
    requires SharesOk(count, first, base, s) && w < |s.workers| && i < count
    requires Holds(s.workers[w], i)
    requires s'.visited == s.visited + [i] && s'.reserved == s.reserved && s'.workers == s.workers[w := k]
    requires forall j: nat :: Holds(k, j) <==> Holds(s.workers[w], j) && j != i
    ensures SharesOk(count, first, base, s')
  {
    assert i !in s.visited;
    assert forall v :: 0 <= v < |s.workers| && v != w ==> !Holds(s.workers[v], i);
    forall v, j: nat | 0 <= v < |s.workers| && Holds(s'.workers[v], j)
      ensures Claimed(first, base, s'.reserved, j)
    {
      assert Holds(s.workers[v], j);
    }
    forall j: nat | j < count && Claimed(first, base, s'.reserved, j)
      ensures j in s'.visited || SomeHolder(s'.workers, j)
    {
      if j !in s'.visited {
        assert j !in s.visited && j != s'.visited[|s.visited|];
        assert SomeHolder(s.workers, j);
        var v :| 0 <= v < |s.workers| && Holds(s.workers[v], j);
        assert Holds(s'.workers[v], j);
      }
    }
  }

  lemma VisitInv(job: Job, s: State, w: nat, rc: int, done: bool)
    requires JobOk(job) && Inv(job, s) && Enabled(job, s, Visit(w, rc, done))
    ensures Inv(job, Next(job, s, Visit(w, rc, done)))
  {
    var i := s.workers[w].i;
    var s' := Next(job, s, Visit(w, rc, done));
    assert WorkerOk(job, s, w);
    forall v | 0 <= v < |s.workers| ensures WorkerOk(job, s', v) {
      assert WorkerOk(job, s, v);
    }
    VisitShares(job.Count(), |s.workers| * job.slice, job.threads * job.slice, s, s', w, i, s'.workers[w]);
  }

  lemma StepInv(job: Job, s: State, step: Step)
    requires JobOk(job) && Inv(job, s) && Enabled(job, s, step)
    ensures Inv(job, Next(job, s, step))
  {
    match step {
      case Create(ok) => {
        if ok {
          CreateInv(job, s);
        } else {
          forall v | 0 <= v < |s.workers| ensures WorkerOk(job, Next(job, s, step), v) {
            assert WorkerOk(job, s, v);
          }
        }
      }
      case Visit(w, rc, done) => VisitInv(job, s, w, rc, done);
      case _ => GuardInv(job, s, step);
    }
  }

  lemma {:induction false} RunInv(job: Job, run: seq<State>, steps: seq<Step>, n: nat)
    requires JobOk(job) && IsRun(job, run, steps) && n < |run|
    ensures Inv(job, run[n])
  {
    if n == 0 {
      StartInv(job);
    } else {
      RunInv(job, run, steps, n - 1);
      StepInv(job, run[n - 1], steps[n - 1]);
    }
  }

  // ---------------------------------------------------------------------
  // Exactly once
  // ---------------------------------------------------------------------

  /** Whatever the interleaving, whatever stops or fails to start: no index is
      processed twice, and at most one worker is between the mutex calls. */
  lemma AtMostOnce(job: Job, run: seq<State>, steps: seq<Step>, n: nat)
    requires JobOk(job) && IsRun(job, run, steps) && n < |run|
    ensures Distinct(run[n].visited) && forall j <- run[n].visited :: j < job.Count()
    ensures forall a, b :: 0 <= a < b < |run[n].workers| ==> !InGuard(run[n].workers[a]) || !InGuard(run[n].workers[b])
  {
    RunInv(job, run, steps, n);
    var s := run[n];
    forall a, b | 0 <= a < b < |s.workers| ensures !InGuard(s.workers[a]) || !InGuard(s.workers[b]) {
      assert WorkerOk(job, s, a) && WorkerOk(job, s, b);
    }
  }

  predicate NobodyStopped(s: State) {
    forall w :: 0 <= w < |s.workers| ==> !s.workers[w].stopped
  }

  lemma NothingHeld(job: Job, s: State, j: nat)
    requires WorkersOk(job, s) && Finished(job, s) && NobodyStopped(s) && j < job.Count()
    ensures !SomeHolder(s.workers, j)
  {
    forall w | 0 <= w < |s.workers| ensures !Holds(s.workers[w], j) {
      assert WorkerOk(job, s, w);
    }
  }

  lemma ProcessedAt(count: nat, first: nat, base: nat, s: State)
    requires SharesOk(count, first, base, s) && base <= count <= s.reserved
    requires forall j: nat :: j < count ==> !SomeHolder(s.workers, j)
    ensures forall j: nat :: j in s.visited <==> j < first || base <= j < count
  {
    forall j: nat | j < first || base <= j < count ensures j in s.visited {
      assert Claimed(first, base, s.reserved, j) && !SomeHolder(s.workers, j);
    }
  }

  /** What a finished run without early stops has processed: everything but the first
      slices of the workers that could not be created. */
  lemma Processed(job: Job, run: seq<State>, steps: seq<Step>)
    requires JobOk(job) && IsRun(job, run, steps)
    requires var s := run[|steps|]; Finished(job, s) && NobodyStopped(s) && |s.workers| > 0
    ensures var s := run[|steps|];
      forall j: nat :: j in s.visited <==> j < |s.workers| * job.slice || job.threads * job.slice <= j < job.Count()
  {
    var s := run[|steps|];
    RunInv(job, run, steps, |steps|);
    assert WorkerOk(job, s, 0);
    forall j: nat | j < job.Count() ensures !SomeHolder(s.workers, j) {
      NothingHeld(job, s, j);
    }
    ProcessedAt(job.Count(), |s.workers| * job.slice, job.threads * job.slice, s);
  }

  /** Every index is processed exactly when every worker was created. */
  lemma CompleteIffAllCreated(job: Job, run: seq<State>, steps: seq<Step>)
    requires JobOk(job) && IsRun(job, run, steps)
    requires var s := run[|steps|]; Finished(job, s) && NobodyStopped(s) && |s.workers| > 0
    ensures var s := run[|steps|];
      (forall j: nat :: j < job.Count() ==> j in s.visited) <==> |s.workers| == job.threads
  {
    var s := run[|steps|];
    RunInv(job, run, steps, |steps|);
    Processed(job, run, steps);
    if |s.workers| < job.threads {
      Scale(job.slice, |s.workers| + 1, job.threads);
      var j := |s.workers| * job.slice;
      assert (|s.workers| + 1) * job.slice == j + job.slice;
      assert j < job.Count() && j !in s.visited;
    }
  }
}
