/** The scheduler as the program runs it: fields updated in place by recursive
    procedures and loops, each proved against the state functions. */
module FbulkScheduler {
  import opened Sequences
  import opened Graph
  import opened Fbulk
  import opened FbulkRuns
  import opened FbulkTheorems
  import opened FbulkSettled
  import opened FbulkLoops
  import opened FbulkDrain

  lemma NextDone(s: State, pid: int, code: int, r: State)
    requires Inv(s) && InRange(s) && Next(s, Reaped(pid, code), r)
    ensures CountDone(s.status, |s.status|) < CountDone(r.status, |r.status|) <= |r.status| == |s.status|
  {
    NextKeeps(s, Reaped(pid, code), r);
    CountDoneMono(r.status, r.status, |r.status|);
  }

  // ---------------------------------------------------------------------
  // Scanning: one reverse edge at a time
  // ---------------------------------------------------------------------

  lemma {:induction false} OccurrencesPrepend(q: seq<nat>, i: nat, v: nat, y: nat)
    ensures Occurrences([v] + q, i + 1, y) == Occurrences(q, i, y)
    decreases |q| - i
  {
    if i < |q| {
      assert ([v] + q)[i + 1] == q[i];
      OccurrencesPrepend(q, i + 1, v, y);
    }
  }

  lemma {:induction false} UnsignalledPrepend(dbase: seq<seq<nat>>, k: seq<nat>, n: nat, x: nat, v: nat, y: nat)
    requires n <= |dbase| == |k| && x < |dbase| && k[x] == 0
    ensures Unsignalled(dbase[x := [v] + dbase[x]], k, n, y)
         == Unsignalled(dbase, k, n, y) + (if x < n && v == y then 1 else 0)
  {
    if n > 0 {
      UnsignalledPrepend(dbase, k, n - 1, x, v, y);
      if x == n - 1 {
        OccurrencesPrepend(dbase[x], 0, v, y);
      }
    }
  }

  lemma {:induction false} NoEdges(dbase: seq<seq<nat>>, k: seq<nat>, n: nat, y: nat)
    requires n <= |dbase| == |k| && forall x :: 0 <= x < n ==> dbase[x] == []
    ensures Unsignalled(dbase, k, n, y) == 0
  {
    if n > 0 {
      NoEdges(dbase, k, n - 1, y);
    }
  }

  /** The dependents graph a list of dependencies per item describes. */
  ghost function Reversed(deps: seq<seq<nat>>): Digraph<nat> {
    map x: nat | x < |deps| :: Clients(deps, x)
  }

  ghost function Clients(deps: seq<seq<nat>>, x: nat): set<nat> {
    set y: nat | y < |deps| && x in deps[y]
  }

  lemma SameGraph(dbase: seq<seq<nat>>, deps: seq<seq<nat>>)
    requires |dbase| == |deps|
    requires forall x, j :: 0 <= x < |dbase| && 0 <= j < |dbase[x]| ==> dbase[x][j] < |deps|
    requires forall x: nat, y: nat :: x < |deps| && y < |deps| ==> (y in dbase[x] <==> x in deps[y])
    ensures Dependents(dbase) == Reversed(deps)
  {
    var g, h := Dependents(dbase), Reversed(deps);
    assert g.Keys == h.Keys;
    forall x | x in g ensures g[x] == h[x] {
      forall y | y in g[x] ensures y in h[x] {
        var j :| 0 <= j < |dbase[x]| && dbase[x][j] == y;
      }
      assert forall y :: y in h[x] ==> y in g[x];
    }
  }

  /** How often v occurs in q. */
  ghost function Count(q: seq<nat>, v: nat): nat {
    multiset(q)[v]
  }

  lemma CountIn(q: seq<nat>, v: nat)
    ensures v in q <==> Count(q, v) > 0
  {
    assert v in q <==> v in multiset(q);
  }

  lemma CountNone()
    ensures forall v: nat :: Count([], v) == 0
  {
  }

  lemma CountPrepend(q: seq<nat>, v: nat, y: nat)
    ensures Count([v] + q, y) == Count(q, y) + if v == y then 1 else 0
  {
  }

  lemma CountAppend(q: seq<nat>, j: nat, y: nat)
    requires j < |q|
    ensures Count(q[..j + 1], y) == Count(q[..j], y) + if q[j] == y then 1 else 0
  {
    assert q[..j + 1] == q[..j] + [q[j]];
  }

  /** The first j of the dependencies q of y stand in the reverse lists besides what was
      there, each as often as it was given. */
  ghost predicate EdgeCount(was: seq<seq<nat>>, dbase: seq<seq<nat>>, q: seq<nat>, y: nat, j: nat, a: nat, b: nat)
    requires a < |was| == |dbase| && j <= |q|
  {
    Count(dbase[a], b) == Count(was[a], b) + if b == y then Count(q[..j], a) else 0
  }

  /** Edges into the first y items stand in the reverse lists as often as they were given. */
  ghost predicate FromDeps(dbase: seq<seq<nat>>, deps: seq<seq<nat>>, y: nat, a: nat, b: nat)
    requires a < |dbase| && b < |deps|
  {
    Count(dbase[a], b) == if b < y then Count(deps[b], a) else 0
  }

  ghost predicate EdgesUpTo(was: seq<seq<nat>>, dbase: seq<seq<nat>>, q: seq<nat>, n: nat, y: nat, j: nat) {
    && |was| == |dbase| == n && j <= |q|
    && forall a: nat, b: nat :: a < n && b < n ==> EdgeCount(was, dbase, q, y, j, a, b)
  }

  lemma EdgeAdded(was: seq<seq<nat>>, dbase: seq<seq<nat>>, q: seq<nat>, n: nat, y: nat, j: nat)
    requires EdgesUpTo(was, dbase, q, n, y, j) && j < |q| && q[j] < n && y < n
    ensures EdgesUpTo(was, dbase[q[j] := [y] + dbase[q[j]]], q, n, y, j + 1)
  {
    var after, more := dbase[q[j] := [y] + dbase[q[j]]], j + 1;
    forall a: nat, b: nat | a < n && b < n ensures EdgeCount(was, after, q, y, more, a, b) {
      assert EdgeCount(was, dbase, q, y, j, a, b);
      CountPrepend(dbase[q[j]], y, b);
      CountAppend(q, j, a);
    }
  }

  class Scheduler {
    var status: seq<Status>
    var dcount: seq<int>
    var xcode: seq<int>
    var pid: seq<int>
    var dbase: seq<seq<nat>>
    var buildList: seq<nat>
    var runList: seq<nat>
    var nParallel: int
    var nRunning: int
    var nBuilt: nat
    var nFinished: nat
    ghost var started: seq<nat>
    ghost var aborted: bool

    ghost function Now(): State
      reads this
    {
      State(status, dcount, xcode, pid, dbase, buildList, runList, nParallel, nRunning, nBuilt, nFinished,
        started, aborted)
    }

    /** Scans the dependency lists of all packages before any build runs. */
    constructor (deps: seq<seq<nat>>, parallel: nat)
      requires forall y, j :: 0 <= y < |deps| && 0 <= j < |deps[y]| ==> deps[y][j] < |deps|
      requires Acyclic<nat>(Reversed(deps))
      ensures Scanned(Now()) && nParallel == parallel && |status| == |deps|
      ensures forall x: nat, y: nat :: x < |deps| && y < |deps| ==> Count(dbase[x], y) == Count(deps[y], x)
    {
      var n := |deps|;
      status := seq(n, i => XWaiting);
      dcount := seq(n, i => 0);
      xcode := seq(n, i => 0);
      pid := seq(n, i => 0);
      dbase := seq(n, i => []);
      buildList, runList := [], [];
      nParallel, nRunning, nBuilt, nFinished := parallel, 0, 0, 0;
      started, aborted := [], false;
      new;
      forall y | 0 <= y < n ensures dcount[y] == Unsignalled(dbase, Zeros(n), n, y) {
        NoEdges(dbase, Zeros(n), n, y);
      }
      ScanAll(n, deps);
      forall x: nat, y: nat | x < n && y < n ensures y in dbase[x] <==> x in deps[y] {
        CountIn(dbase[x], y);
        CountIn(deps[y], x);
      }
      SameGraph(dbase, deps);
    }

    method ScanAll(n: nat, deps: seq<seq<nat>>)
      requires n == |deps| && Sized(n) && Counted(n)
      requires forall y, j :: 0 <= y < |deps| && 0 <= j < |deps[y]| ==> deps[y][j] < |deps|
      requires buildList == [] && forall y: nat :: y < n ==> status[y] == XWaiting && dbase[y] == [] && dcount[y] == 0
      modifies this`dbase, this`dcount, this`xcode, this`status, this`nBuilt, this`buildList, this`aborted
      ensures Sized(n) && Counted(n) && aborted == old(aborted)
      ensures forall x: nat, y: nat :: x < n && y < n ==> Count(dbase[x], y) == Count(deps[y], x)
      ensures forall y: nat :: y < n ==> dcount[y] == |deps[y]|
      ensures forall y: nat :: y < n ==> status[y] == if dcount[y] == 0 then XBuild else XWaiting
      ensures Distinct(buildList) && forall y: nat :: y in buildList <==> y < n && status[y] == XBuild
    {
      CountNone();
      var y: nat := 0;
      while y < n
        invariant y <= n && aborted == old(aborted) && ScannedUpTo(n, deps, y)
      {
        ScanNext(n, deps, y);
        y := y + 1;
      }
      forall a: nat, b: nat | a < n && b < n ensures Count(dbase[a], b) == Count(deps[b], a) {
        assert FromDeps(dbase, deps, y, a, b);
      }
    }

    /** The first y packages have been scanned: their edges stand in the reverse lists and
        are counted, and those without dependencies are queued. */
    ghost predicate ScannedUpTo(n: nat, deps: seq<seq<nat>>, y: nat)
      reads this
      requires n == |deps|
    {
      && Sized(n) && Counted(n) && Linked()
      && (forall a: nat, b: nat :: a < n && b < n ==> FromDeps(dbase, deps, y, a, b))
      && (forall b: nat :: b < n ==> dcount[b] == if b < y then |deps[b]| else 0)
      && (forall b: nat :: b < n ==> status[b] == if b < y && dcount[b] == 0 then XBuild else XWaiting)
    }

    /** Scans package y and queues it if it has no dependencies. */
    method ScanNext(n: nat, deps: seq<seq<nat>>, y: nat)
      requires n == |deps| && y < n && ScannedUpTo(n, deps, y)
      requires forall j :: 0 <= j < |deps[y]| ==> deps[y][j] < n
      modifies this`dbase, this`dcount, this`xcode, this`status, this`nBuilt, this`buildList, this`aborted
      ensures ScannedUpTo(n, deps, y + 1) && aborted == old(aborted)
    {
      forall b: nat | b < n ensures y !in dbase[b] {
        assert FromDeps(dbase, deps, y, b, y);
        CountIn(dbase[b], y);
      }
      ghost var before, done := dbase, y + 1;
      ScanItem(n, deps, y);
      forall a: nat, b: nat | a < n && b < n ensures FromDeps(dbase, deps, done, a, b) {
        assert FromDeps(before, deps, y, a, b);
      }
      if dcount[y] == 0 {
        EnqueueBuild(y);
      }
    }

    ghost predicate Sized(n: nat)
      reads this
    {
      && |status| == n && |dcount| == n && |xcode| == n && |pid| == n && |dbase| == n
      && forall x, j :: 0 <= x < |dbase| && 0 <= j < |dbase[x]| ==> dbase[x][j] < n
    }

    ghost predicate Counted(n: nat)
      reads this
    {
      |dcount| == n && |dbase| == n && forall z: nat :: z < n ==> dcount[z] == Unsignalled(dbase, Zeros(n), n, z)
    }

    /** The build list holds exactly the items in XBUILD, each once. */
    ghost predicate Linked()
      reads this
    {
      Distinct(buildList) && forall y: nat :: y in buildList <==> y < |status| && status[y] == XBuild
    }

    method EnqueueBuild(x: nat)
      requires x < |status|
      modifies this`buildList, this`status
      ensures Now() == AddBuild(old(Now()), x)
      ensures old(Linked()) && old(status)[x] != XBuild ==> Linked()
    {
      buildList := buildList + [x];
      status := status[x := XBuild];
    }

    /** Adds the reverse edge from x to the item y that depends on it. */
    method AddDepn(y: nat, x: nat)
      requires x < |status| && y < |status| && |dcount| == |xcode| == |dbase| == |status|
      modifies this`dbase, this`dcount, this`xcode, this`status, this`nBuilt, this`aborted
      ensures dbase == old(dbase)[x := [y] + old(dbase[x])]
      ensures dcount == if old(status[x]) == XDone then old(dcount) else old(dcount)[y := old(dcount[y]) + 1]
      ensures var failed := old(status[x]) == XDone && old(xcode[x]) != 0;
        && status == (if failed then old(status)[y := XDepFail] else old(status))
        && xcode == (if failed then old(xcode)[y := old(xcode[x])] else old(xcode))
        && nBuilt == old(nBuilt) + (if failed then 1 else 0)
        && aborted == (old(aborted) || (failed && old(status[y]) != XWaiting && old(status[y]) != XDepFail))
    {
      dbase := dbase[x := [y] + dbase[x]];
      if status[x] == XDone {
        if xcode[x] != 0 {
          aborted := aborted || (status[y] != XWaiting && status[y] != XDepFail);
          xcode := xcode[y := xcode[x]];
          status := status[y := XDepFail];
          nBuilt := nBuilt + 1;
        }
      } else {
        dcount := dcount[y := dcount[y] + 1];
      }
    }

    method ScanItem(n: nat, deps: seq<seq<nat>>, y: nat)
      requires Sized(n) && Counted(n) && y < n == |deps|
      requires forall j :: 0 <= j < |deps[y]| ==> deps[y][j] < n
      requires forall b :: 0 <= b < n ==> status[b] != XDone && y !in dbase[b]
      modifies this`dbase, this`dcount, this`xcode, this`status, this`nBuilt, this`aborted
      ensures Sized(n) && Counted(n) && status == old(status) && aborted == old(aborted)
      ensures forall a: nat, b: nat :: a < n && b < n ==>
        Count(dbase[a], b) == Count(old(dbase)[a], b) + if b == y then Count(deps[y], a) else 0
      ensures forall b: nat :: b < n ==> dcount[b] == old(dcount[b]) + if b == y then |deps[y]| else 0
    {
      CountNone();
      assert deps[y][..0] == [];
      assert EdgesUpTo(dbase, dbase, deps[y], n, y, 0);
      var j := 0;
      while j < |deps[y]|
        invariant 0 <= j <= |deps[y]| && Sized(n) && Counted(n) && status == old(status) && aborted == old(aborted)
        invariant EdgesUpTo(old(dbase), dbase, deps[y], n, y, j)
        invariant forall b: nat :: b < n ==> dcount[b] == old(dcount[b]) + if b == y then j else 0
      {
        var x := deps[y][j];
        ghost var before := dbase;
        AddDepn(y, x);
        forall z: nat | z < n ensures dcount[z] == Unsignalled(dbase, Zeros(n), n, z) {
          UnsignalledPrepend(before, Zeros(n), n, x, y, z);
        }
        EdgeAdded(old(dbase), before, deps[y], n, y, j);
        j := j + 1;
      }
      assert deps[y][..j] == deps[y];
      forall a: nat, b: nat | a < n && b < n
        ensures Count(dbase[a], b) == Count(old(dbase)[a], b) + if b == y then Count(deps[y], a) else 0
      {
        assert EdgeCount(old(dbase), dbase, deps[y], y, j, a, b);
      }
    }

    method Decrement(y: nat)
      requires WellFormed(Now()) && y < |status|
      modifies this`aborted, this`dcount
      ensures WellFormed(Now())
      ensures aborted == (old(aborted) || old(dcount)[y] <= 0) && dcount == old(dcount)[y := old(dcount)[y] - 1]
    {
      aborted := aborted || dcount[y] <= 0;
      dcount := dcount[y := dcount[y] - 1];
    }

    /** Signals one dependent of x. */
    method SignalDependent(x: nat, i: nat)
      requires WellFormed(Now()) && x < |status| && i < |dbase[x]|
      modifies this
      ensures Now() == Signal(old(Now()), x, i)
      decreases Height(dbase, x), 0
    {
      var y := dbase[x][i];
      ghost var s := Now();
      DependentRank(dbase, x, i);
      Decrement(y);
      assert Now() == Checked(s, y);
      if status[y] == XWaiting || status[y] == XDepFail {
        if xcode[x] == 0 {
          if dcount[y] == 0 {
            if status[y] == XWaiting {
              EnqueueBuild(y);
            } else {
              ProcessCompletion(y);
            }
          }
        } else {
          FailDependent(y, xcode[x]);
        }
      }
    }

    /** The dependent y fails because a dependency did, with its code. */
    method FailDependent(y: nat, code: int)
      requires WellFormed(Now()) && y < |status|
      modifies this
      ensures Now() == Complete(Failing(old(Now()), y, code), y)
      decreases Height(dbase, y), 3
    {
      xcode := xcode[y := code];
      status := status[y := XDepFail];
      ProcessCompletion(y);
    }

    /** Processes the completion of item x. */
    method ProcessCompletion(x: nat)
      requires WellFormed(Now()) && x < |status|
      modifies this
      ensures Now() == Complete(old(Now()), x)
      decreases Height(dbase, x), 2
    {
      aborted := aborted || (status[x] != XRun && status[x] != XDepFail);
      SignalDependents(x);
    }

    /** The loop over the dependents of x and the bookkeeping after it. */
    method SignalDependents(x: nat)
      requires WellFormed(Now()) && x < |status|
      modifies this
      ensures Now() == CompleteFrom(old(Now()), x, 0)
      decreases Height(dbase, x), 1
    {
      var i := 0;
      while i < |dbase[x]|
        invariant WellFormed(Now()) && dbase == old(dbase) && |status| == |old(status)|
        invariant 0 <= i <= |dbase[x]|
        invariant CompleteFrom(Now(), x, i) == CompleteFrom(old(Now()), x, 0)
        decreases |dbase[x]| - i
      {
        SignalDependent(x, i);
        i := i + 1;
      }
      status := status[x := XDone];
      nFinished := nFinished + 1;
    }

    /** Takes the ended child out of the run list, if it is one of ours. */
    method WaitRunning(child: int, code: int) returns (found: bool)
      requires Inv(Now()) && 0 <= code < 256
      modifies this
      ensures found <==>
        exists i :: 0 <= i < |old(runList)| && old(InRange(Now())) && old(pid)[old(runList)[i]] == child
      ensures old(InRange(Now()))
      ensures found ==> Next(old(Now()), Reaped(child, code), Now()) && |runList| < |old(runList)|
      ensures |old(pid)| == |status| == |xcode|
      ensures found ==> (exists x: nat :: (
        x < |status| && x in old(runList) && old(pid)[x] == child && status[x] == XDone && xcode[x] == code))
      ensures !found ==> Now() == old(Now())
      ensures Inv(Now())
    {
      InvInRange(Now());
      var i := 0;
      while i < |runList| && pid[runList[i]] != child
        invariant 0 <= i <= |runList| && Now() == old(Now())
        invariant forall j :: 0 <= j < i ==> pid[runList[j]] != child
      {
        i := i + 1;
      }
      found := i < |runList|;
      if found {
        ghost var before := Now();
        var x := runList[i];
        runList := runList[..i] + runList[i + 1..];
        xcode := xcode[x := code];
        nRunning := nRunning - 1;
        assert Now() == Collect(before, i, code);
        CollectKeeps(before, i, code);
        ProcessCompletion(x);
        assert IsReap(before, i, child, code, Now());
        NextKeeps(before, Reaped(child, code), Now());
      }
    }

    method TakeBuild() returns (x: nat)
      requires InRange(Now()) && buildList != []
      modifies this
      ensures x == old(buildList)[0] && Now() == Dequeue(old(Now()))
    {
      x := buildList[0];
      buildList := buildList[1..];
      status := status[x := XRun];
      started := started + [x];
    }

    /** One turn of the loop that starts builds, given what fork returned. */
    method StartBuild(child: int)
      requires Inv(Now()) && CanStart(Now()) && child != 0
      modifies this
      ensures old(InRange(Now()))
      ensures Next(old(Now()), if child > 0 then Forked(child) else ForkFailed, Now())
      ensures Inv(Now())
      ensures var x := old(buildList)[0];
        && x < |status| == |pid| == |xcode|
        && (child > 0 ==> status[x] == XRun && pid[x] == child)
        && (child < 0 ==> status[x] == XDone && xcode[x] == -98)
    {
      InvInRange(Now());
      ghost var before := Now();
      var x := TakeBuild();
      pid := pid[x := child];
      if child < 0 {
        xcode := xcode[x := FORK_FAILED_CODE];
        FinishUnforked(x, child, before);
      } else {
        runList := [x] + runList;
        nRunning := nRunning + 1;
        nBuilt := nBuilt + 1;
        FinishForked(x, child, before);
      }
    }

    ghost method FinishForked(x: nat, child: int, before: State)
      requires Inv(before) && InRange(before) && CanStart(before) && x == before.buildList[0] && child > 0
      requires Now() == Track(Dequeue(before), x, child)
      ensures Next(before, Forked(child), Now()) && Inv(Now())
      ensures |status| == |before.status| && Recorded(before, Forked(child), Now())
    {
      NextKeeps(before, Forked(child), Now());
    }

    method FinishUnforked(x: nat, child: int, ghost before: State)
      requires Inv(before) && InRange(before) && CanStart(before) && x == before.buildList[0] && child < 0
      requires Now() == Unforked(Dequeue(before), x, child)
      modifies this
      ensures Next(before, ForkFailed, Now()) && Inv(Now())
      ensures |status| == |before.status| && Recorded(before, ForkFailed, Now())
    {
      StartKeeps(before, child, FORK_FAILED_CODE);
      ProcessCompletion(x);
      assert IsForkFailure(before, child, Now());
      NextKeeps(before, ForkFailed, Now());
    }

    /** Starts builds until none can start, whatever fork returns, then reaps any
        number of ended children. */
    method RunBuilds()
      requires Inv(Now())
      modifies this
      ensures Inv(Now()) && RunsBuilds(old(Now()), Now())
    {
      LeadsSelf(Starting, Now());
      while nRunning < nParallel && buildList != []
        invariant Inv(Now()) && Leads(Starting, old(Now()), Now()) && |status| == |old(status)|
        decreases |status| - |started|
      {
        ghost var before := Now();
        var forked: bool, n: nat := *, *;
        var child := if forked then 1 + n else -1;
        StartBuild(child);
        InvInRange(before);
        ghost var e := if child > 0 then Forked(child) else ForkFailed;
        LeadsNext(Starting, old(Now()), before, e, Now());
        NextKeeps(before, e, Now());
        StartedBounded(Now());
      }
      Reap();
    }

    /** Reaps ended children until none is left, none has ended or a stray one turns up. */
    method Reap()
      requires Inv(Now())
      modifies this
      ensures Inv(Now()) && Leads(Reaping, old(Now()), Now())
    {
      LeadsSelf(Reaping, Now());
      var more := true;
      while more
        invariant Inv(Now()) && Leads(Reaping, old(Now()), Now())
        decreases |runList|, more
      {
        more := runList != [];
        if more {
          ghost var before := Now();
          var child: int, code: int :| 0 <= code < 256;
          more := WaitRunning(child, code);
          if more {
            LeadsNext(Reaping, old(Now()), before, Reaped(child, code), Now());
          }
        }
      }
    }

    /** The end of main: runs builds and waits for children until nothing is running or
        a child that is not ours was reaped. With room for everything, everything is
        finished. */
    method Drain() returns (stray: bool)
      requires Inv(Now())
      modifies this
      ensures Inv(Now()) && Drains(old(Now()), Now())
      ensures runList == [] || stray
      ensures old(Roomy(Now())) && !stray ==> nFinished == |status|
    {
      ghost var s := Now();
      RunBuilds();
      TurnsOnce(s, Now());
      ghost var q;
      stray, q := DrainLoop(s, [Now()]);
      DrainsBy(s, q);
      if Roomy(s) && !stray {
        RoomyFinishes(s, Now());
      }
    }

    /** The loop itself. */
    method DrainLoop(ghost s: State, ghost before: seq<State>) returns (stray: bool, ghost q: seq<State>)
      requires Inv(Now()) && Turns(s, before) && before[|before| - 1] == Now()
      modifies this
      ensures Inv(Now()) && Turns(s, q) && q[|q| - 1] == Now() && (runList == [] || stray)
    {
      stray, q := false, before;
      while runList != [] && !stray
        invariant Inv(Now()) && Turns(s, q) && q[|q| - 1] == Now()
        decreases |status| - CountDone(status, |status|), !stray
      {
        stray, q := TakeTurn(s, q);
      }
    }

    method TakeTurn(ghost s: State, ghost q: seq<State>) returns (stray: bool, ghost q': seq<State>)
      requires Inv(Now()) && runList != [] && Turns(s, q) && q[|q| - 1] == Now()
      modifies this
      ensures Inv(Now()) && Turns(s, q') && q'[|q'| - 1] == Now()
      ensures stray ==> Now() == old(Now())
      ensures !stray ==> |status| == |old(status)|
      ensures !stray ==> CountDone(old(status), |old(status)|) < CountDone(status, |status|) <= |status|
    {
      var found := WaitAndRun();
      stray, q' := !found, q;
      if found {
        TurnsAppend(s, q, Now());
        Appended(q, Now());
        q' := q + [Now()];
      }
    }

    /** One turn of the drain loop, unless a stray child ends it. */
    method WaitAndRun() returns (found: bool)
      requires Inv(Now()) && runList != []
      modifies this
      ensures Inv(Now())
      ensures found ==> Turn(old(Now()), Now()) && |status| == |old(status)|
      ensures found ==> CountDone(old(status), |old(status)|) < CountDone(status, |status|) <= |status|
      ensures !found ==> Now() == old(Now())
    {
      ghost var before := Now();
      InvInRange(before);
      var child: int, code: int :| 0 <= code < 256;
      found := WaitRunning(child, code);
      if found {
        ghost var middle := Now();
        NextDone(before, child, code, middle);
        RunBuilds();
        RunsLater(middle, Now());
        assert Turn(before, Now());
      }
    }
  }

  lemma RunsLater(s: State, r: State)
    requires Inv(s) && RunsBuilds(s, r)
    ensures Inv(r) && |r.status| == |s.status|
    ensures CountDone(s.status, |s.status|) <= CountDone(r.status, |r.status|) <= |r.status|
  {
    var m :| Leads(Starting, s, m) && !CanStart(m) && Leads(Reaping, m, r);
    LeadsLater(Starting, s, m);
    LeadsLater(Reaping, m, r);
    CountDoneMono(s.status, r.status, |r.status|);
  }

  lemma StartedBounded(s: State)
    requires Inv(s)
    ensures |s.started| <= |s.status|
  {
    forall i | 0 <= i < |s.started| ensures s.started[i] in Range(|s.status|) {
      assert s.started[i] in s.started;
    }
    DistinctWithin(s.started, Range(|s.status|));
  }
}
