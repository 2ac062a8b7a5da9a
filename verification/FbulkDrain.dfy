/** When the drain loop of main finishes every package, and when it can stop with
    packages left over. */
module FbulkDrain {
  import opened Graph
  import opened Sequences
  import opened Fbulk
  import opened FbulkRuns
  import opened FbulkTheorems
  import opened FbulkSettled
  import opened FbulkLoops

  ghost predicate AllDone(s: State) {
    forall y :: 0 <= y < |s.status| ==> s.status[y] == XDone
  }

  predicate Idle(status: Status) {
    status == XWaiting || status == XDepFail
  }

  /** Some dependency of y has neither been queued nor completed. */
  ghost predicate HeldUp(s: State, y: nat)
    requires WellFormed(s)
  {
    exists x, j :: 0 <= x < |s.dbase| && 0 <= j < |s.dbase[x]| && s.dbase[x][j] == y && Idle(s.status[x])
  }

  /** Whoever waits is held up by an item that is itself idle, so that nothing will ever
      be queued again, and there is a job for everything queued or running. */
  ghost predicate Roomy(s: State)
    requires WellFormed(s)
  {
    && (forall y :: 0 <= y < |s.status| && s.status[y] == XWaiting ==> HeldUp(s, y))
    && |s.buildList| + s.nRunning <= s.nParallel
  }

  // ---------------------------------------------------------------------
  // With room for everything the loop finishes everything
  // ---------------------------------------------------------------------

  ghost predicate Fits(s: State) {
    Inv(s) && Roomy(s)
  }

  /** What an event never does: an item that was queued, started or completed is never
      idle again. */
  lemma NeverIdleAgain(s: State, r: State, z: nat)
    requires Inv(s) && Inv(r) && Later(s, r) && z < |s.status|
    ensures !Idle(s.status[z]) ==> !Idle(r.status[z])
  {
    assert ItemOk(s, Settled(s), {}, z) && ItemOk(r, Settled(r), {}, z);
    if s.status[z] == XBuild {
      ReadyMeans(s, z);
      CountersExact(r, z);
      assert OpenEdges(r, z) == {};
    }
  }

  /** While nothing idle is started: an idle item is completed only as failed, and is not
      running or queued unless it was free to be. */
  lemma IdleFails(s: State, r: State, z: nat)
    requires Inv(s) && Inv(r) && Later(s, r) && z < |s.status| && Idle(s.status[z]) && z !in r.started
    ensures r.status[z] != XRun && (r.status[z] == XDone ==> r.xcode[z] != 0)
  {
    assert ItemOk(r, Settled(r), {}, z);
  }

  /** An idle item that is held up, or that has a failed dependency, is not queued. */
  lemma NotQueued(s: State, r: State, z: nat)
    requires Inv(s) && Inv(r) && Later(s, r) && z < |s.status| && Idle(s.status[z])
    requires s.status[z] == XWaiting ==> HeldUp(s, z)
    requires forall w: nat :: w < |s.status| && Idle(s.status[w]) ==> w !in r.started
    ensures r.status[z] != XBuild
  {
    assert ItemOk(s, Settled(s), {}, z) && ItemOk(r, Settled(r), {}, z);
    if r.status[z] == XBuild {
      ReadyMeans(r, z);
      if s.status[z] == XWaiting {
        var x, j :| 0 <= x < |s.dbase| && 0 <= j < |s.dbase[x]| && s.dbase[x][j] == z && Idle(s.status[x]);
        assert r.status[x] == XDone && r.xcode[x] == 0;
        IdleFails(s, r, x);
      }
    }
  }

  /** An item that is to fail never waits again. */
  lemma FailsForGood(s: State, r: State, y: nat)
    requires Inv(s) && Inv(r) && Later(s, r) && y < |s.status| && s.status[y] == XDepFail
    ensures r.status[y] != XWaiting
  {
    assert ItemOk(s, Settled(s), {}, y) && ItemOk(r, Settled(r), {}, y);
    var x, j :| 0 <= x < |s.dbase| && 0 <= j < |s.dbase[x]| && s.dbase[x][j] == y
      && s.xcode[x] != 0 && s.status[x] == XDone;
    assert r.status[x] == XDone && r.xcode[x] != 0 && r.dbase[x][j] == y;
  }

  /** Whoever still waits was waiting and is still held up. */
  lemma StillHeldUp(s: State, r: State, y: nat)
    requires Inv(s) && Inv(r) && Later(s, r) && y < |s.status| && r.status[y] == XWaiting
    requires forall z: nat :: z < |s.status| && s.status[z] == XWaiting ==> HeldUp(s, z)
    requires forall w: nat :: w < |s.status| && Idle(s.status[w]) ==> w !in r.started
    ensures HeldUp(r, y)
  {
    assert ItemOk(s, Settled(s), {}, y) && ItemOk(r, Settled(r), {}, y);
    NeverIdleAgain(s, r, y);
    if s.status[y] == XDepFail {
      FailsForGood(s, r, y);
    }
    var x, j :| 0 <= x < |s.dbase| && 0 <= j < |s.dbase[x]| && s.dbase[x][j] == y && Idle(s.status[x]);
    IdleFails(s, r, x);
    NotQueued(s, r, x);
    assert r.dbase[x][j] == y;
  }

  /** Nothing new is queued. */
  lemma QueueShrinks(s: State, r: State)
    requires Inv(s) && Inv(r) && Later(s, r)
    requires forall z: nat :: z < |s.status| && s.status[z] == XWaiting ==> HeldUp(s, z)
    requires forall w: nat :: w < |s.status| && Idle(s.status[w]) ==> w !in r.started
    ensures forall z: nat :: z in r.buildList ==> z in s.buildList && z !in r.started
  {
    forall z: nat | z in r.buildList ensures z in s.buildList && z !in r.started {
      assert ItemOk(s, Settled(s), {}, z) && ItemOk(r, Settled(r), {}, z);
      if Idle(s.status[z]) {
        NotQueued(s, r, z);
      }
    }
  }

  lemma FitsNext(s: State, e: Event, r: State)
    requires Fits(s) && InRange(s) && Next(s, e, r)
    ensures Fits(r) && |r.buildList| <= |s.buildList|
  {
    NextKeeps(s, e, r);
    IdleNotStarted(s, e, r);
    QueueShrinks(s, r);
    forall y | 0 <= y < |r.status| && r.status[y] == XWaiting ensures HeldUp(r, y) {
      StillHeldUp(s, r, y);
    }
    FewerQueued(s, e, r);
  }

  lemma IdleNotStarted(s: State, e: Event, r: State)
    requires Inv(s) && InRange(s) && Next(s, e, r)
    requires e.Reaped? ==> r.started == s.started
    requires !e.Reaped? ==> r.started == s.started + [s.buildList[0]]
    ensures forall w: nat :: w < |s.status| && Idle(s.status[w]) ==> w !in r.started
  {
    forall w: nat | w < |s.status| && Idle(s.status[w]) ensures w !in r.started {
      assert ItemOk(s, Settled(s), {}, w);
      assert !e.Reaped? ==> s.buildList[0] in s.buildList;
    }
  }

  /** Queued and running together do not get more. */
  lemma FewerQueued(s: State, e: Event, r: State)
    requires Inv(s) && Inv(r) && InRange(s) && Next(s, e, r)
    requires !e.Reaped? ==> r.started == s.started + [s.buildList[0]]
    requires forall z: nat :: z in r.buildList ==> z in s.buildList && z !in r.started
    ensures |r.buildList| <= |s.buildList| && |r.buildList| + r.nRunning <= |s.buildList| + s.nRunning
    ensures r.nParallel == s.nParallel
  {
    var from := if e.Reaped? then s.buildList else s.buildList[1..];
    forall z | z in r.buildList ensures z in from {
      if !e.Reaped? {
        assert s.buildList == [s.buildList[0]] + from;
        assert s.buildList[0] in r.started;
      }
    }
    DistinctFewer(r.buildList, from);
  }

  lemma FitsLeads(w: Stretch, s: State, r: State)
    requires Fits(s) && Leads(w, s, r)
    ensures Fits(r) && |r.buildList| <= |s.buildList|
  {
    var states: seq<State>, events: seq<Event> :|
      IsStretch(w, states, events) && states[0] == s && states[|events|] == r;
    for i := 0 to |events|
      invariant Fits(states[i]) && |states[i].buildList| <= |s.buildList|
    {
      FitsNext(states[i], events[i], states[i + 1]);
    }
  }

  lemma FitsRunsBuilds(s: State, r: State)
    requires Fits(s) && RunsBuilds(s, r)
    ensures Fits(r) && r.buildList == []
  {
    var m :| Leads(Starting, s, m) && !CanStart(m) && Leads(Reaping, m, r);
    FitsLeads(Starting, s, m);
    FitsLeads(Reaping, m, r);
  }

  lemma {:induction false} FitsTurns(s: State, q: seq<State>)
    requires Fits(s) && Turns(s, q)
    ensures Fits(q[|q| - 1]) && q[|q| - 1].buildList == []
    decreases |q|
  {
    if |q| == 1 {
      FitsRunsBuilds(s, q[0]);
    } else {
      var t, r := q[|q| - 2], q[|q| - 1];
      FitsTurns(s, q[..|q| - 1]);
      var pid, code, m :| Next(t, Reaped(pid, code), m) && RunsBuilds(m, r);
      FitsNext(t, Reaped(pid, code), m);
      FitsRunsBuilds(m, r);
    }
  }

  lemma RoomyFinishes(s: State, r: State)
    requires Inv(s) && Roomy(s) && Drains(s, r) && r.runList == []
    ensures AllDone(r) && r.nFinished == |r.status|
  {
    var q: seq<State> :| Turns(s, q) && q[|q| - 1] == r;
    FitsTurns(s, q);
    Quiescent(r);
  }

  // ---------------------------------------------------------------------
  // Without it the loop can stop early
  // ---------------------------------------------------------------------

  /** What was queued or running in s has not failed in r. */
  ghost predicate Succeeding(s: State, r: State)
    requires WellFormed(s) && WellFormed(r) && |s.status| == |r.status|
  {
    forall z :: 0 <= z < |s.status| && (s.status[z] == XBuild || s.status[z] == XRun) ==>
      r.status[z] == XBuild || r.status[z] == XRun || (r.status[z] == XDone && r.xcode[z] == 0)
  }

  /** A prefix of the build list has moved to the run list. */
  predicate Moved(s: State, m: State) {
    && m.started + m.buildList == s.started + s.buildList
    && m.nRunning - |m.started| == s.nRunning - |s.started| && m.nParallel == s.nParallel
    && |m.status| == |s.status|
  }

  lemma StartOne(s: State) returns (e: Event, r: State)
    requires Inv(s) && InRange(s) && CanStart(s)
    ensures !e.Reaped? && Next(s, e, r) && Inv(r)
    ensures Moved(s, r) && |r.buildList| < |s.buildList|
    ensures forall t: State :: WellFormed(t) && |t.status| == |s.status| && Succeeding(t, s) ==> Succeeding(t, r)
  {
    var x := s.buildList[0];
    e, r := Forked(1 + x), Track(Dequeue(s), x, 1 + x);
    ForkedKeeps(s, 1 + x);
    assert s.buildList == [x] + r.buildList;
  }

  /** Forking for as long as builds can start. */
  lemma StartAll(s: State) returns (m: State)
    requires Inv(s)
    ensures Inv(m) && Leads(Starting, s, m) && !CanStart(m) && Moved(s, m) && Succeeding(s, m)
  {
    m := s;
    LeadsSelf(Starting, s);
    while CanStart(m)
      invariant Inv(m) && Leads(Starting, s, m) && Moved(s, m) && Succeeding(s, m)
      decreases |m.buildList|
    {
      InvInRange(m);
      var e, r := StartOne(m);
      LeadsNext(Starting, s, m, e, r);
      m := r;
    }
  }

  /** One reap with code 0. */
  lemma ReapOne(s: State) returns (e: Event, r: State)
    requires Inv(s) && InRange(s) && s.runList != []
    ensures e.Reaped? && Next(s, e, r) && Inv(r)
    ensures r.started == s.started && |r.runList| < |s.runList| && |r.status| == |s.status|
    ensures forall z: nat :: z in s.buildList ==> z in r.buildList
    ensures forall t: State :: WellFormed(t) && |t.status| == |s.status| && Succeeding(t, s) ==> Succeeding(t, r)
  {
    var x := s.runList[0];
    var m := Collect(s, 0, 0);
    e, r := Reaped(s.pid[x], 0), Complete(m, x);
    assert IsReap(s, 0, s.pid[x], 0, r);
    assert x in s.runList;
    CollectKeeps(s, 0, 0);
    CompleteKeeps(m, Settled(s), x);
    forall z: nat | z in s.buildList ensures z in r.buildList {
      assert m.status[z] == XBuild;
    }
    assert forall z :: 0 <= z < |s.status| && z != x && Engaged(s.status[z]) ==>
      r.status[z] == s.status[z] && r.xcode[z] == s.xcode[z];
  }

  /** Reaping everything that runs, each with code 0. */
  lemma ReapAll(t: State, s: State) returns (r: State)
    requires Inv(s) && WellFormed(t) && |t.status| == |s.status| && Succeeding(t, s)
    ensures Inv(r) && Leads(Reaping, s, r) && r.runList == [] && r.started == s.started && |r.status| == |s.status|
    ensures Succeeding(t, r) && forall z: nat :: z in s.buildList ==> z in r.buildList
  {
    r := s;
    LeadsSelf(Reaping, s);
    while r.runList != []
      invariant Inv(r) && Leads(Reaping, s, r) && r.started == s.started && |r.status| == |s.status|
      invariant Succeeding(t, r) && forall z: nat :: z in s.buildList ==> z in r.buildList
      decreases |r.runList|
    {
      InvInRange(r);
      var e, n := ReapOne(r);
      LeadsNext(Reaping, s, r, e, n);
      r := n;
    }
  }

  /** Starting what fits and reaping it all inside the first runBuilds ends the loop at
      once, with something left over. */
  lemma StopsEarly(s: State) returns (r: State)
    requires Inv(s) && !Roomy(s)
    ensures Drains(s, r) && r.runList == [] && !AllDone(r)
  {
    var m := StartAll(s);
    LeadsLater(Starting, s, m);
    r := ReapAll(s, m);
    LeadsLater(Reaping, m, r);
    assert RunsBuilds(s, r);
    TurnsOnce(s, r);
    DrainsBy(s, [r]);
    if m.buildList != [] {
      LeftQueued(m, r);
    } else {
      LaterTrans(s, m, r);
      LeftWaiting(s, m, r);
    }
  }

  lemma LeftQueued(m: State, r: State)
    requires Inv(r) && m.buildList != [] && forall z: nat :: z in m.buildList ==> z in r.buildList
    ensures !AllDone(r)
  {
    var z := m.buildList[0];
    assert z in m.buildList && z in r.buildList;
    assert r.status[z] == XBuild;
  }

  lemma LeftWaiting(s: State, m: State, r: State)
    requires Inv(s) && !Roomy(s) && m.buildList == [] && Moved(s, m) && m.nRunning <= m.nParallel
    requires Inv(r) && Later(s, r) && r.started == m.started && |r.status| == |s.status| && Succeeding(s, r)
    ensures !AllDone(r)
  {
    assert m.started == m.started + m.buildList;
    assert |s.buildList| + s.nRunning == m.nRunning;
    var y :| 0 <= y < |s.status| && s.status[y] == XWaiting && !HeldUp(s, y);
    NotCompleted(s, r, y);
  }

  /** An item that waits only for what is queued, running or completed cannot be completed
      when all of that succeeds. */
  lemma NotCompleted(s: State, r: State, y: nat)
    requires Inv(s) && Inv(r) && Later(s, r) && Succeeding(s, r) && r.started == s.started + s.buildList
    requires y < |s.status| && s.status[y] == XWaiting && !HeldUp(s, y)
    ensures r.status[y] != XDone
  {
    assert ItemOk(s, Settled(s), {}, y) && ItemOk(r, Settled(r), {}, y);
    assert y !in s.buildList;
    forall x, j | 0 <= x < |r.dbase| && 0 <= j < |r.dbase[x]| && r.dbase[x][j] == y && r.status[x] == XDone
      ensures r.xcode[x] == 0
    {
      assert s.dbase[x][j] == y && !Idle(s.status[x]);
    }
    assert !Doomed(r, {}, y);
  }

  /** From any state between completions, every drain without a stray child finishes every
      package if and only if whoever waits is held up by something idle and there is a
      job for everything queued or running. */
  lemma DrainFinishesIff(s: State)
    requires Inv(s)
    ensures (forall r :: Drains(s, r) && r.runList == [] ==> AllDone(r)) <==> Roomy(s)
  {
    if Roomy(s) {
      forall r | Drains(s, r) && r.runList == [] ensures AllDone(r) {
        RoomyFinishes(s, r);
      }
    } else {
      var r := StopsEarly(s);
    }
  }

  /** Whoever waits is in the end held up by a package that is to fail. */
  lemma {:induction false} NoneWaits(s: State, y: nat)
    requires Inv(s) && y < |s.status| && Roomy(s) && forall z :: 0 <= z < |s.status| ==> s.status[z] != XDepFail
    ensures s.status[y] != XWaiting
    decreases |s.dbase| - Height(s.dbase, y)
  {
    if s.status[y] == XWaiting {
      var x, j :| 0 <= x < |s.dbase| && 0 <= j < |s.dbase[x]| && s.dbase[x][j] == y && Idle(s.status[x]);
      DependentRank(s.dbase, x, j);
      HeightBound(s, x);
      NoneWaits(s, x);
    }
  }

  /** Before anything was started this means that no package waits for another and that
      there is a job for each. */
  lemma ScannedRoomy(s: State)
    requires Scanned(s)
    ensures Inv(s) && (Roomy(s) <==>
      (forall y :: 0 <= y < |s.status| ==> s.dcount[y] == 0) && |s.buildList| <= s.nParallel)
  {
    ScannedInv(s);
    if Roomy(s) {
      forall y | 0 <= y < |s.status| ensures s.dcount[y] == 0 {
        NoneWaits(s, y);
      }
    }
  }

  // ---------------------------------------------------------------------
  // Two real inputs
  // ---------------------------------------------------------------------

  /** Two packages, the second depending on the first. */
  function Pair(): State {
    State([XBuild, XWaiting], [0, 1], [0, 0], [0, 0], [[1], []], [0], [], 1, 0, 0, 0, [], false)
  }

  lemma PairScanned()
    ensures Scanned(Pair()) && InRange(Pair())
  {
    var s := Pair();
    var g := Dependents(s.dbase);
    forall x, y | x in g && y in g[x] ensures !Reaches<nat>(g, y, x) {
      assert s.dbase[0][0] == 1 && y == 1 && x == 0;
      if Reaches<nat>(g, y, x) {
        var z := ReachesFirst<nat>(g, y, x);
        assert false;
      }
    }
    UnsignalledZero(s.dbase, Zeros(2), 2, 0);
    assert Unsignalled(s.dbase, Zeros(2), 2, 1) == 1 by {
      assert Occurrences(s.dbase[0], 0, 1) == 1 && Occurrences(s.dbase[1], 0, 1) == 0;
    }
  }

  lemma PairStarted() returns (r: State)
    ensures InRange(Pair()) && WellFormed(Pair()) && Next(Pair(), Forked(7), r)
    ensures Inv(r) && InRange(r) && r.dbase == [[1], []] && r.pid[0] == 7
    ensures r.runList == [0] && r.buildList == [] && r.started == [0]
  {
    PairScanned();
    var s := Pair();
    ScannedInv(s);
    r := Track(Dequeue(s), 0, 7);
    ForkedKeeps(s, 7);
    InvInRange(r);
  }

  /** One job, the second package depending on the first: the reap at the end of
      runBuilds empties the run list after it has queued the second package. */
  lemma DrainStopsEarly() returns (t: State)
    ensures Scanned(Pair()) && Drains(Pair(), t) && t.runList == [] && t.buildList == [1]
  {
    PairScanned();
    ScannedInv(Pair());
    var r := PairStarted();
    t := Complete(Collect(r, 0, 0), r.runList[0]);
    assert IsReap(r, 0, 7, 0, t);
    SecondQueued(r, t);
    OneOfEach(Pair(), Forked(7), r, Reaped(7, 0), t);
  }

  lemma OneOfEach(s: State, e: Event, m: State, f: Event, r: State)
    requires Inv(s) && InRange(s) && Inv(m) && InRange(m) && Next(s, e, m) && Next(m, f, r)
    requires !e.Reaped? && f.Reaped? && !CanStart(m)
    ensures Drains(s, r)
  {
    LeadsSelf(Starting, s);
    LeadsNext(Starting, s, s, e, m);
    LeadsSelf(Reaping, m);
    LeadsNext(Reaping, m, m, f, r);
    assert RunsBuilds(s, r);
    TurnsOnce(s, r);
    DrainsBy(s, [r]);
  }

  /** Completing an item without dependents queues nothing. */
  lemma NothingMore(s: State, x: nat)
    requires WellFormed(s) && x < |s.status| && s.dbase[x] == []
    ensures Complete(s, x).buildList == s.buildList
  {
  }

  /** One job and two packages without any dependency. */
  function Strangers(): State {
    State([XBuild, XBuild], [0, 0], [0, 0], [0, 0], [[], []], [0, 1], [], 1, 0, 0, 0, [], false)
  }

  lemma StrangersScanned()
    ensures Scanned(Strangers())
  {
    var s := Strangers();
    assert forall x :: x in Dependents(s.dbase) ==> Dependents(s.dbase)[x] == {};
    UnsignalledZero(s.dbase, Zeros(2), 2, 0);
    UnsignalledZero(s.dbase, Zeros(2), 2, 1);
  }

  /** The first package ends before the loop looks: the second is never started. */
  lemma DrainForgetsStrangers() returns (t: State)
    ensures Scanned(Strangers()) && Drains(Strangers(), t) && t.runList == [] && t.buildList == [1]
  {
    StrangersScanned();
    var s := Strangers();
    ScannedInv(s);
    InvInRange(s);
    var r := Track(Dequeue(s), 0, 7);
    ForkedKeeps(s, 7);
    InvInRange(r);
    t := Complete(Collect(r, 0, 0), 0);
    assert IsReap(r, 0, 7, 0, t);
    NothingMore(Collect(r, 0, 0), 0);
    OneOfEach(s, Forked(7), r, Reaped(7, 0), t);
  }

  lemma SecondQueued(r: State, t: State)
    requires Inv(r) && InRange(r) && r.dbase == [[1], []] && r.runList == [0] && r.buildList == [] && r.started == [0]
    requires Next(r, Reaped(7, 0), t)
    ensures Inv(t) && t.runList == [] && t.buildList == [1]
  {
    var i: nat :| i < |r.runList| && IsReap(r, i, 7, 0, t);
    CollectKeeps(r, 0, 0);
    CompleteKeeps(Collect(r, 0, 0), Settled(r), 0);
    LastSignal(t);
    OnlyOne(t.buildList, 1);
  }

  lemma LastSignal(t: State)
    requires Inv(t) && t.dbase == [[1], []] && t.started == [0] && t.status[0] == XDone && t.xcode[0] == 0
    ensures t.status[1] == XBuild && 1 in t.buildList && forall y :: y in t.buildList ==> y == 1
  {
    assert t.dbase[0][0] == 1 && t.dbase[1] == [];
    assert ItemOk(t, Settled(t), {}, 1);
    CountersExact(t, 1);
    assert OpenEdges(t, 1) == {};
    assert !Doomed(t, {}, 1);
  }
}
