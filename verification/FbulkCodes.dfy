/** Exit codes over whole runs: every code an item ends with was reported for that item, or
    for a dependency it failed with, and whether an item was built depends only on the codes
    the children of its dependencies returned. */
module FbulkCodes {
  import opened Sequences
  import opened Graph
  import opened Fbulk
  import opened FbulkRuns
  import opened FbulkTheorems
  import opened FbulkSettled

  /** Event i takes item y off the build list. */
  ghost predicate StartedAt(states: seq<State>, events: seq<Event>, i: nat, y: nat) {
    && i < |events| < |states| && !events[i].Reaped?
    && states[i].buildList != [] && states[i].buildList[0] == y
  }

  /** Event i forks a child for y, and event j is that child ending with the code. */
  ghost predicate ChildEnded(states: seq<State>, events: seq<Event>, i: nat, j: nat, y: nat, code: int) {
    && StartedAt(states, events, i, y) && events[i].Forked?
    && i < j < |events| && events[j] == Reaped(events[i].pid, code)
    && y in states[j].runList && y !in states[j + 1].runList
  }

  /** The child forked for y returned the code before event n. */
  ghost predicate Returned(states: seq<State>, events: seq<Event>, n: nat, y: nat, code: int) {
    exists i: nat, j: nat :: j < n && ChildEnded(states, events, i, j, y, code)
  }

  /** No child could be forked for y before event n. */
  ghost predicate Unforkable(states: seq<State>, events: seq<Event>, n: nat, y: nat) {
    exists i: nat :: i < n && StartedAt(states, events, i, y) && events[i].ForkFailed?
  }

  /** A child with the pid was forked for y before event n. */
  ghost predicate ForkedAs(states: seq<State>, events: seq<Event>, n: nat, y: nat, pid: int) {
    exists i: nat :: i < n && StartedAt(states, events, i, y) && events[i] == Forked(pid)
  }

  /** What the run so far says about an item that has started. */
  ghost predicate Accounted(states: seq<State>, events: seq<Event>, n: nat, y: nat)
    requires n < |states| && WellFormed(states[n])
  {
    var s := states[n];
    && y in s.started && y < |s.status|
    && (s.status[y] == XRun ==> ForkedAs(states, events, n, y, s.pid[y]))
    && (s.status[y] == XDone ==>
      || Returned(states, events, n, y, s.xcode[y])
      || (Unforkable(states, events, n, y) && s.xcode[y] == -98))
  }

  /** The next event starts y. */
  lemma AccountStart(states: seq<State>, events: seq<Event>, n: nat, m: nat, y: nat)
    requires IsRun(states, events) && n < |events| && m == n + 1 && Inv(states[n])
    requires y !in states[n].started && y in states[m].started
    ensures Accounted(states, events, m, y)
  {
    var s, r := states[n], states[m];
    NextKeeps(s, events[n], r);
    assert y == s.buildList[0];
    assert StartedAt(states, events, n, y);
    assert ItemOk(r, Settled(r), {}, y);
  }

  /** The next event ends y, which was running. */
  lemma AccountEnd(states: seq<State>, events: seq<Event>, n: nat, m: nat, y: nat)
    requires IsRun(states, events) && n < |events| && m == n + 1 && Inv(states[n])
    requires Accounted(states, events, n, y) && states[n].status[y] == XRun && Inv(states[m])
    requires states[m].status[y] != XRun
    ensures Accounted(states, events, m, y)
  {
    var s, r := states[n], states[m];
    NextKeeps(s, events[n], r);
    var i: nat :| i < n && StartedAt(states, events, i, y) && events[i] == Forked(s.pid[y]);
    assert s.status[y] == XRun;
    assert y in s.runList && y !in r.runList;
    assert events[n].Reaped?;
    assert ChildEnded(states, events, i, n, y, r.xcode[y]);
  }

  lemma AccountStep(states: seq<State>, events: seq<Event>, n: nat, m: nat, y: nat)
    requires IsRun(states, events) && n < |events| && m == n + 1 && Inv(states[n])
    requires Accounted(states, events, n, y)
    ensures Accounted(states, events, m, y)
  {
    var s, r := states[n], states[m];
    NextKeeps(s, events[n], r);
    assert ItemOk(s, Settled(s), {}, y);
    assert ItemOk(r, Settled(r), {}, y);
    if s.status[y] == XRun && r.status[y] != XRun {
      AccountEnd(states, events, n, m, y);
    }
  }

  /** Over every run: what has started and completed carries the exit code of its own
      child, or -98 because no child could be forked for it; what is running is waited
      for under the pid of its own child. */
  lemma OwnCode(states: seq<State>, events: seq<Event>, n: nat, y: nat)
    requires IsRun(states, events) && Inv(states[0]) && states[0].started == []
    requires n < |states| && y in states[n].started
    ensures Accounted(states, events, n, y)
  {
    RunKeepsInv(states, events, n);
    for m := 0 to n
      invariant Inv(states[m])
      invariant y in states[m].started ==> Accounted(states, events, m, y)
    {
      NextKeeps(states[m], events[m], states[m + 1]);
      if y in states[m].started {
        AccountStep(states, events, m, m + 1, y);
      } else if y in states[m + 1].started {
        AccountStart(states, events, m, m + 1, y);
      }
    }
  }

  /** The item that leaves the run list when a child ends completes with the child's code. */
  lemma LeavesWithCode(s: State, e: Event, r: State, y: nat)
    requires Inv(s) && InRange(s) && Next(s, e, r) && e.Reaped? && y in s.runList && y !in r.runList
    ensures Inv(r) && DoneWith(r, y, e.code)
  {
    NextKeeps(s, e, r);
    assert s.status[y] == XRun && r.status[y] != XRun;
  }

  ghost predicate DoneWith(s: State, y: nat, code: int) {
    y < |s.status| == |s.xcode| && s.status[y] == XDone && s.xcode[y] == code
  }

  lemma DoneStep(s: State, e: Event, r: State, y: nat, code: int)
    requires Inv(s) && InRange(s) && Next(s, e, r) && DoneWith(s, y, code)
    ensures Inv(r) && DoneWith(r, y, code)
  {
    NextKeeps(s, e, r);
  }

  lemma LeaverKept(states: seq<State>, events: seq<Event>, j: nat, n: nat, y: nat)
    requires IsRun(states, events) && j < n < |states| && Inv(states[j])
    requires events[j].Reaped? && y in states[j].runList && y !in states[j + 1].runList
    ensures DoneWith(states[n], y, events[j].code)
  {
    LeavesWithCode(states[j], events[j], states[j + 1], y);
    for m := j + 1 to n
      invariant Inv(states[m]) && DoneWith(states[m], y, events[j].code)
    {
      DoneStep(states[m], events[m], states[m + 1], y, events[j].code);
    }
  }

  /** A child's exit code is never lost. */
  lemma ReturnedKept(states: seq<State>, events: seq<Event>, n: nat, y: nat, code: int)
    requires IsRun(states, events) && Inv(states[0]) && n < |states| && Returned(states, events, n, y, code)
    ensures DoneWith(states[n], y, code)
  {
    var i: nat, j: nat :| j < n && ChildEnded(states, events, i, j, y, code);
    RunKeepsInv(states, events, j);
    LeaverKept(states, events, j, n, y);
  }

  /** An event before event n takes y off the build list. */
  ghost predicate Taken(states: seq<State>, events: seq<Event>, n: nat, y: nat) {
    exists i: nat :: i < n && StartedAt(states, events, i, y)
  }

  lemma TakenStep(states: seq<State>, events: seq<Event>, n: nat, m: nat, y: nat)
    requires IsRun(states, events) && n < |events| && m == n + 1
    ensures Taken(states, events, m, y) <==> Taken(states, events, n, y) || StartedAt(states, events, n, y)
  {
    if Taken(states, events, n, y) {
      var i: nat :| i < n && StartedAt(states, events, i, y);
    }
  }

  lemma StartedStep(s: State, e: Event, r: State, y: nat)
    requires Inv(s) && InRange(s) && Next(s, e, r)
    ensures Inv(r)
    ensures y in r.started <==> y in s.started || (!e.Reaped? && s.buildList != [] && s.buildList[0] == y)
  {
    NextKeeps(s, e, r);
  }

  /** An item has started exactly when an event took it off the build list. */
  lemma StartedIff(states: seq<State>, events: seq<Event>, n: nat, y: nat)
    requires IsRun(states, events) && Inv(states[0]) && states[0].started == [] && n < |states|
    ensures y in states[n].started <==> Taken(states, events, n, y)
  {
    for m := 0 to n
      invariant Inv(states[m])
      invariant y in states[m].started <==> Taken(states, events, m, y)
    {
      StartedStep(states[m], events[m], states[m + 1], y);
      TakenStep(states, events, m, m + 1, y);
    }
  }

  /** Every transitive dependency of y got a child, and that child returned 0. */
  ghost predicate DependenciesReturnedZero(states: seq<State>, events: seq<Event>, n: nat, y: nat)
    requires n < |states|
  {
    forall z :: 0 <= z < |states[n].dbase| && z != y && DependsOn(states[n], y, z) ==>
      Returned(states, events, n, z, 0)
  }

  /** In every run that has come to rest: an event took y off the build list exactly when
      every transitive dependency of y got a child that returned 0. */
  lemma BuiltIffDependenciesReturnedZero(states: seq<State>, events: seq<Event>, y: nat)
    requires IsRun(states, events) && Scanned(states[0])
    requires var s := states[|events|]; s.buildList == [] && s.runList == [] && y < |s.status|
    ensures Taken(states, events, |events|, y) <==> DependenciesReturnedZero(states, events, |events|, y)
  {
    var n := |events|;
    var s := states[n];
    ScannedInv(states[0]);
    RunKeepsInv(states, events, n);
    Quiescent(s);
    StartedIff(states, events, n, y);
    forall z | 0 <= z < |s.dbase| ensures s.xcode[z] == 0 <==> Returned(states, events, n, z, 0) {
      if s.xcode[z] == 0 {
        OwnCode(states, events, n, z);
      }
      if Returned(states, events, n, z, 0) {
        ReturnedKept(states, events, n, z, 0);
      }
    }
  }

  /** The code was reported for z itself. */
  ghost predicate Reported(states: seq<State>, events: seq<Event>, n: nat, z: nat, code: int) {
    Returned(states, events, n, z, code) || (Unforkable(states, events, n, z) && code == -98)
  }

  /** The completed item y has the code of a failed build among its dependencies. */
  ghost predicate FailedWith(states: seq<State>, events: seq<Event>, n: nat, y: nat)
    requires n < |states| && WellFormed(states[n]) && y < |states[n].status|
  {
    exists z :: 0 <= z < |states[n].dbase| && z != y && DependsOn(states[n], y, z)
      && states[n].xcode[z] == states[n].xcode[y] && Reported(states, events, n, z, states[n].xcode[y])
  }

  lemma DependencyOf(s: State, y: nat, w: nat, j: nat)
    requires WellFormed(s) && w < |s.status| && j < |s.dbase[w]| && s.dbase[w][j] == y
    ensures w != y && DependsOn(s, y, w) && Height(s.dbase, y) < Height(s.dbase, w)
  {
    var g := Dependents(s.dbase);
    assert y in g[w];
    ReachesSelf<nat>(g, y);
    ReachesEdge<nat>(g, w, y, y);
    DependentRank(s.dbase, w, j);
  }

  /** Over every run: an item that completed without having started carries, as its own, the
      non-zero code reported for one of its transitive dependencies. */
  lemma {:induction false} SkippedCode(states: seq<State>, events: seq<Event>, n: nat, y: nat)
    requires IsRun(states, events) && Inv(states[0]) && states[0].started == [] && n < |states|
    requires var s := states[n]; Inv(s) && y < |s.status| && s.status[y] == XDone && y !in s.started
    ensures FailedWith(states, events, n, y) && states[n].xcode[y] != 0
    decreases |states[n].dbase| - Height(states[n].dbase, y)
  {
    var s := states[n];
    assert ItemOk(s, Settled(s), {}, y);
    var w, j :| 0 <= w < |s.dbase| && 0 <= j < |s.dbase[w]| && s.dbase[w][j] == y
      && s.xcode[w] != 0 && s.xcode[w] == s.xcode[y] && s.status[w] == XDone;
    DependencyOf(s, y, w, j);
    if w in s.started {
      OwnCode(states, events, n, w);
    } else {
      HeightBound(s, w);
      SkippedCode(states, events, n, w);
      FailedThrough(states, events, n, y, w, j);
    }
  }

  lemma FailedThrough(states: seq<State>, events: seq<Event>, n: nat, y: nat, w: nat, j: nat)
    requires n < |states| && WellFormed(states[n]) && y < |states[n].status| && w < |states[n].status|
    requires var s := states[n]; j < |s.dbase[w]| && s.dbase[w][j] == y && s.xcode[w] == s.xcode[y]
    requires FailedWith(states, events, n, w)
    ensures FailedWith(states, events, n, y)
  {
    var s := states[n];
    var g := Dependents(s.dbase);
    DependencyOf(s, y, w, j);
    assert y in g[w];
    var z :| 0 <= z < |s.dbase| && z != w && DependsOn(s, w, z)
      && s.xcode[z] == s.xcode[w] && Reported(states, events, n, z, s.xcode[w]);
    ReachesTrans<nat>(g, z, w, y);
  }
}
