/** Where runs begin and end: a fully scanned graph satisfies the invariant, something
    can always happen until everything is completed, and when both lists are empty every
    package has been settled. */
module FbulkSettled {
  import opened Sequences
  import opened Graph
  import opened Fbulk
  import opened FbulkRuns
  import opened FbulkTheorems

  // ---------------------------------------------------------------------
  // Both lists empty: everything is settled
  // ---------------------------------------------------------------------

  /** An item that waits has a dependency that has not completed. */
  lemma WaitsFor(s: State, y: nat) returns (x: nat, j: nat)
    requires Inv(s) && y < |s.status| && (s.status[y] == XWaiting || s.status[y] == XDepFail)
    ensures x < |s.dbase| && j < |s.dbase[x]| && s.dbase[x][j] == y && s.status[x] != XDone
  {
    assert ItemOk(s, Settled(s), {}, y);
    CountersExact(s, y);
    var e :| e in OpenEdges(s, y);
    x, j := e.0, e.1;
  }

  lemma {:induction false} NothingWaits(s: State, y: nat)
    requires Inv(s) && s.buildList == [] && s.runList == [] && y < |s.status|
    ensures s.status[y] == XDone
    decreases |s.dbase| - Height(s.dbase, y)
  {
    assert s.status[y] != XBuild && s.status[y] != XRun by {
      assert y !in s.buildList && y !in s.runList;
    }
    if s.status[y] != XDone {
      var x, j := WaitsFor(s, y);
      DependentRank(s.dbase, x, j);
      HeightBound(s, x);
      NothingWaits(s, x);
    }
  }

  /** z is y or a transitive dependency of y. */
  ghost predicate DependsOn(s: State, y: nat, z: nat) {
    Reaches<nat>(Dependents(s.dbase), z, y)
  }

  ghost predicate ClosureSucceeded(s: State, y: nat)
    requires |s.xcode| == |s.dbase|
  {
    forall z :: 0 <= z < |s.dbase| && z != y && DependsOn(s, y, z) ==> s.xcode[z] == 0
  }

  /** An item that succeeded, or ran, had its whole closure succeed. */
  lemma {:induction false} RanMeansClosure(s: State, y: nat, z: nat)
    requires Inv(s) && y in s.started && y < |s.status| && z < |s.status| && z != y && DependsOn(s, y, z)
    ensures s.xcode[z] == 0
    decreases |s.dbase| - Height(s.dbase, y)
  {
    var g := Dependents(s.dbase);
    var w := ReachesLast<nat>(g, z, y);
    var j :| 0 <= j < |s.dbase[w]| && s.dbase[w][j] == y;
    assert ItemOk(s, Settled(s), {}, y);
    assert s.xcode[w] == 0;
    if w != z {
      assert ItemOk(s, Settled(s), {}, w);
      DependentRank(s.dbase, w, j);
      HeightBound(s, w);
      RanMeansClosure(s, w, z);
    }
  }

  /** Whenever both lists are empty: every item is completed, counted once, and it
      was run exactly when all its transitive dependencies succeeded; an item that
      was not run carries a nonzero code. */
  lemma Quiescent(s: State)
    requires Inv(s) && s.buildList == [] && s.runList == []
    ensures forall y :: 0 <= y < |s.status| ==> s.status[y] == XDone
    ensures s.nFinished == |s.status|
    ensures forall y :: 0 <= y < |s.status| ==> (y in s.started <==> ClosureSucceeded(s, y))
    ensures forall y :: 0 <= y < |s.status| && y !in s.started ==> s.xcode[y] != 0
  {
    forall y | 0 <= y < |s.status| ensures s.status[y] == XDone {
      NothingWaits(s, y);
    }
    CountDoneAll(s.status, |s.status|);
    forall y | 0 <= y < |s.status|
      ensures y in s.started <==> ClosureSucceeded(s, y)
      ensures y !in s.started ==> s.xcode[y] != 0
    {
      assert ItemOk(s, Settled(s), {}, y);
      if y in s.started {
        forall z | 0 <= z < |s.dbase| && z != y && DependsOn(s, y, z) ensures s.xcode[z] == 0 {
          RanMeansClosure(s, y, z);
        }
      } else {
        FailedDependency(s, y);
      }
    }
  }

  lemma FailedDependency(s: State, y: nat)
    requires Inv(s) && y < |s.status| && Doomed(s, {}, y)
    ensures !ClosureSucceeded(s, y)
  {
    var x, j :| 0 <= x < |s.dbase| && 0 <= j < |s.dbase[x]| && s.dbase[x][j] == y && s.xcode[x] != 0;
    var g := Dependents(s.dbase);
    assert y in g[x];
    ReachesSelf<nat>(g, y);
    ReachesEdge<nat>(g, x, y, y);
    DependentRank(s.dbase, x, j);
    assert DependsOn(s, y, x) && x != y;
  }

  /** As long as something is not completed and at least one job is allowed, a
      build can start or one is running. */
  lemma NeverStuck(s: State, y: nat)
    requires Inv(s) && s.nParallel >= 1 && y < |s.status| && s.status[y] != XDone
    ensures CanStart(s) || s.runList != []
  {
    if s.buildList == [] && s.runList == [] {
      Quiescent(s);
    }
  }

  // ---------------------------------------------------------------------
  // A fully scanned graph
  // ---------------------------------------------------------------------

  /** The state after all of ordered_depends and addDepn, before any build: each
      counter holds the number of dependencies and what has none is queued. */
  ghost predicate Scanned(s: State) {
    && WellFormed(s)
    && s.started == [] && s.runList == [] && s.nRunning == 0 <= s.nParallel && s.nFinished == 0 && !s.aborted
    && (forall y :: 0 <= y < |s.status| ==>
      && s.dcount[y] == Unsignalled(s.dbase, Zeros(|s.dbase|), |s.dbase|, y)
      && s.status[y] == if s.dcount[y] == 0 then XBuild else XWaiting)
    && Distinct(s.buildList)
    && forall y: nat :: y in s.buildList <==> y < |s.status| && s.status[y] == XBuild
  }

  function Zeros(n: nat): seq<nat> {
    seq(n, i => 0)
  }

  lemma {:induction false} NoneDone(status: seq<Status>, n: nat)
    requires n <= |status| && forall x :: 0 <= x < n ==> status[x] != XDone
    ensures CountDone(status, n) == 0
  {
    if n > 0 {
      NoneDone(status, n - 1);
    }
  }

  lemma ScannedInv(s: State)
    requires Scanned(s)
    ensures Inv(s)
  {
    var k := Settled(s);
    assert k == Zeros(|s.dbase|);
    NoneDone(s.status, |s.status|);
    forall y | 0 <= y < |s.status| ensures ItemOk(s, k, {}, y) {
      if s.dcount[y] == 0 {
        UnsignalledZero(s.dbase, k, |k|, y);
      }
    }
  }
}
