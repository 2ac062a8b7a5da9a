/** What every run of the build scheduler guarantees: the dependency counters are
    exact, no assertion fails, nothing runs twice or too early, and runs are short. */
module FbulkTheorems {
  import opened Sequences
  import opened Graph
  import opened Fbulk
  import opened FbulkRuns

  // ---------------------------------------------------------------------
  // Counters count edges
  // ---------------------------------------------------------------------

  /** The dependency edges into y whose source has not completed. */
  ghost function OpenEdges(s: State, y: nat): set<(nat, nat)>
    requires WellFormed(s)
  {
    set x: nat, j: nat | x < |s.dbase| && j < |s.dbase[x]| && s.dbase[x][j] == y && s.status[x] != XDone :: (x, j)
  }

  ghost function Row(q: seq<nat>, x: nat, i: nat, y: nat): set<(nat, nat)> {
    set j: nat | i <= j < |q| && q[j] == y :: (x, j)
  }

  ghost function Edges(dbase: seq<seq<nat>>, k: seq<nat>, n: nat, y: nat): set<(nat, nat)>
    requires n <= |dbase| == |k|
  {
    set x: nat, j: nat | x < n && j < |dbase[x]| && k[x] <= j && dbase[x][j] == y :: (x, j)
  }

  lemma {:induction false} RowCount(q: seq<nat>, x: nat, i: nat, y: nat)
    ensures |Row(q, x, i, y)| == Occurrences(q, i, y)
    decreases |q| - i
  {
    if i < |q| {
      RowCount(q, x, i + 1, y);
      var rest := Row(q, x, i + 1, y);
      if q[i] == y {
        assert Row(q, x, i, y) == {(x, i)} + rest;
        assert (x, i) !in rest;
      } else {
        assert Row(q, x, i, y) == rest;
      }
    }
  }

  lemma {:induction false} EdgesCount(dbase: seq<seq<nat>>, k: seq<nat>, n: nat, y: nat)
    requires n <= |dbase| == |k|
    ensures |Edges(dbase, k, n, y)| == Unsignalled(dbase, k, n, y)
  {
    if n > 0 {
      EdgesCount(dbase, k, n - 1, y);
      RowCount(dbase[n - 1], n - 1, k[n - 1], y);
      EdgesSplit(dbase, k, n, y);
      EdgesApart(dbase, k, n, y);
    }
  }

  lemma EdgesSplit(dbase: seq<seq<nat>>, k: seq<nat>, n: nat, y: nat)
    requires 0 < n <= |dbase| == |k|
    ensures Edges(dbase, k, n, y) == Edges(dbase, k, n - 1, y) + Row(dbase[n - 1], n - 1, k[n - 1], y)
  {
    var all, low, row := Edges(dbase, k, n, y), Edges(dbase, k, n - 1, y), Row(dbase[n - 1], n - 1, k[n - 1], y);
    forall e: (nat, nat) ensures e in all <==> e in low || e in row {
      assert e == (e.0, e.1);
    }
  }

  lemma EdgesApart(dbase: seq<seq<nat>>, k: seq<nat>, n: nat, y: nat)
    requires 0 < n <= |dbase| == |k|
    ensures Edges(dbase, k, n - 1, y) !! Row(dbase[n - 1], n - 1, k[n - 1], y)
  {
  }

  lemma CountersExact(s: State, y: nat)
    requires Inv(s) && y < |s.status|
    ensures s.dcount[y] == |OpenEdges(s, y)|
  {
    EdgesCount(s.dbase, Settled(s), |s.dbase|, y);
    assert OpenEdges(s, y) == Edges(s.dbase, Settled(s), |s.dbase|, y);
  }

  // ---------------------------------------------------------------------
  // Safety of every run
  // ---------------------------------------------------------------------

  /** Every dependency of y has completed successfully. */
  ghost predicate DepsSucceeded(s: State, y: nat)
    requires WellFormed(s)
  {
    forall x, j :: 0 <= x < |s.dbase| && 0 <= j < |s.dbase[x]| && s.dbase[x][j] == y ==>
      s.status[x] == XDone && s.xcode[x] == 0
  }

  lemma ReadyMeans(s: State, y: nat)
    requires Inv(s) && Ready(s, Settled(s), y)
    ensures DepsSucceeded(s, y)
  {
  }

  /** In every state of every run: no C assertion has failed, at most NParallel
      builds are running, every counter equals the number of edges from items not
      yet completed, no item entered XRun twice, and whatever entered XRun had all
      its dependencies completed with exit code 0. */
  lemma RunSafe(states: seq<State>, events: seq<Event>, i: nat)
    requires IsRun(states, events) && Inv(states[0]) && i < |states|
    ensures var s := states[i];
      && !s.aborted && s.nRunning == |s.runList| <= s.nParallel
      && Distinct(s.started)
      && (forall y :: y in s.started ==> DepsSucceeded(s, y))
      && (forall y :: 0 <= y < |s.status| ==> s.dcount[y] == |OpenEdges(s, y)|)
      && (forall y :: 0 <= y < |s.status| && s.status[y] == XWaiting ==> s.dcount[y] > 0)
  {
    RunKeeps(states, events, i, i);
    var s := states[i];
    forall y | 0 <= y < |s.status|
      ensures s.dcount[y] == |OpenEdges(s, y)|
      ensures s.status[y] == XWaiting ==> s.dcount[y] > 0
    {
      CountersExact(s, y);
      assert ItemOk(s, Settled(s), {}, y);
    }
    forall y | y in s.started ensures DepsSucceeded(s, y) {
      assert ItemOk(s, Settled(s), {}, y);
      ReadyMeans(s, y);
    }
  }

  /** A build is started, or fails to fork, only when it never ran before and all
      its dependencies have succeeded; their success is never taken back. */
  lemma StartsOnlyWhenReady(states: seq<State>, events: seq<Event>, i: nat, j: nat)
    requires IsRun(states, events) && Inv(states[0]) && i < |events| && !events[i].Reaped? && i <= j < |states|
    ensures var s := states[i]; CanStart(s) && s.buildList[0] !in s.started && DepsSucceeded(s, s.buildList[0])
    ensures DepsSucceeded(states[j], states[i].buildList[0])
  {
    RunKeeps(states, events, i, j);
    var s := states[i];
    assert Next(s, events[i], states[i + 1]);
    StartKeeps(s, 0, 0);
    ReadyMeans(s, s.buildList[0]);
  }

  lemma OnlyOne(q: seq<nat>, v: nat)
    requires Distinct(q) && v in q && forall x :: x in q ==> x == v
    ensures q == [v]
  {
    forall i | 0 <= i < |q| ensures q[i] == v {
      assert q[i] in q;
    }
    DistinctWithin(q, {v});
  }

  lemma HeightBound(s: State, x: nat)
    requires WellFormed(s)
    ensures Height(s.dbase, x) <= |s.dbase|
  {
    RankBound<nat>(Dependents(s.dbase), x);
    assert Dependents(s.dbase).Keys == Range(|s.dbase|);
  }

  lemma StepsOn(s: State, e: Event, r: State)
    requires Inv(s) && InRange(s) && WellFormed(r) && InRange(r) && Next(s, e, r)
    ensures |s.started| + CountDone(s.status, |s.status|) < |r.started| + CountDone(r.status, |r.status|)
  {
    NextKeeps(s, e, r);
  }

  lemma Progressing(states: seq<State>, events: seq<Event>, i: nat)
    requires IsRun(states, events) && Inv(states[0]) && i < |states|
    ensures i <= |states[i].started| + CountDone(states[i].status, |states[i].status|)
  {
    for m := 0 to i
      invariant Inv(states[m]) && m <= |states[m].started| + CountDone(states[m].status, |states[m].status|)
    {
      StepsOn(states[m], events[m], states[m + 1]);
      NextKeeps(states[m], events[m], states[m + 1]);
    }
  }

  /** No run has more than two events per item. */
  lemma RunsAreShort(states: seq<State>, events: seq<Event>)
    requires IsRun(states, events) && Inv(states[0])
    ensures |events| <= 2 * |states[0].status|
  {
    var n := |events|;
    RunKeeps(states, events, 0, n);
    Progressing(states, events, n);
    var s := states[n];
    forall i | 0 <= i < |s.started| ensures s.started[i] < |s.status| {
      assert s.started[i] in s.started;
    }
    DistinctWithin(s.started, Range(|s.status|));
    CountDoneMono(s.status, s.status, |s.status|);
  }
}
