/** The parallel build scheduler of xbps-fbulk: the state it keeps for a fully
    scanned dependency graph and what one completion does to that state. */
module Fbulk {
  import opened Sequences
  import opened Graph

  datatype Status = XWaiting | XDepFail | XBuild | XRun | XDone

  /** Items are numbered; `dbase[x]` lists the items that depend on x, one entry
      per dependency edge. `started` records the items in the order they entered
      XRun and `aborted` that a C assertion failed; both are history only. */
  datatype State = State(
    status: seq<Status>,
    dcount: seq<int>,
    xcode: seq<int>,
    pid: seq<int>,
    dbase: seq<seq<nat>>,
    buildList: seq<nat>,
    runList: seq<nat>,
    nParallel: int,
    nRunning: int,
    nBuilt: nat,
    nFinished: nat,
    started: seq<nat>,
    aborted: bool)

  ghost function Dependents(dbase: seq<seq<nat>>): Digraph<nat> {
    map x: nat | x < |dbase| :: set y | y in dbase[x]
  }

  /** How many items a completion of x can touch. */
  ghost function Height(dbase: seq<seq<nat>>, x: nat): nat {
    Rank<nat>(Dependents(dbase), x)
  }

  ghost predicate WellFormed(s: State) {
    && |s.dcount| == |s.status|
    && |s.xcode| == |s.status|
    && |s.pid| == |s.status|
    && |s.dbase| == |s.status|
    && (forall x, j :: 0 <= x < |s.dbase| && 0 <= j < |s.dbase[x]| ==> s.dbase[x][j] < |s.status|)
    && Acyclic(Dependents(s.dbase))
  }

  /** The fields no completion touches. */
  predicate SameRun(s: State, r: State) {
    && r.pid == s.pid && r.dbase == s.dbase && r.runList == s.runList
    && r.nParallel == s.nParallel && r.nRunning == s.nRunning && r.nBuilt == s.nBuilt
    && r.started == s.started && |r.status| == |s.status|
  }

  lemma DependentRank(dbase: seq<seq<nat>>, x: nat, j: nat)
    requires forall x, j :: 0 <= x < |dbase| && 0 <= j < |dbase[x]| ==> dbase[x][j] < |dbase|
    requires Acyclic(Dependents(dbase)) && x < |dbase| && j < |dbase[x]|
    ensures Height(dbase, dbase[x][j]) < Height(dbase, x)
  {
    var g := Dependents(dbase);
    assert Closed(g) by {
      forall a, b | a in g && b in g[a] ensures b in g {
        var i :| 0 <= i < |dbase[a]| && dbase[a][i] == b;
      }
    }
    assert dbase[x][j] in g[x];
    RankFalls<nat>(g, x, dbase[x][j]);
  }

  // ---------------------------------------------------------------------
  // What processCompletion computes
  // ---------------------------------------------------------------------

  function AddBuild(s: State, x: nat): (r: State)
    requires x < |s.status|
  {
    s.(buildList := s.buildList + [x], status := s.status[x := XBuild])
  }

  /** The assertion and the decrement at the head of the loop body. */
  function Checked(s: State, y: nat): State
    requires y < |s.dcount|
  {
    s.(aborted := s.aborted || s.dcount[y] <= 0, dcount := s.dcount[y := s.dcount[y] - 1])
  }

  /** The item fails because a dependency did. */
  function Failing(s: State, y: nat, code: int): State
    requires y < |s.status| && y < |s.xcode|
  {
    s.(xcode := s.xcode[y := code], status := s.status[y := XDepFail])
  }

  /** The body of the loop over reverse dependencies, for the edge dbase[x][i]. */
  ghost function Signal(s: State, x: nat, i: nat): (r: State)
    requires WellFormed(s) && x < |s.status| && i < |s.dbase[x]|
    ensures WellFormed(r) && SameRun(s, r)
    decreases Height(s.dbase, x), |s.dbase[x]| - i, 0
  {
    var y := s.dbase[x][i];
    DependentRank(s.dbase, x, i);
    var s1 := Checked(s, y);
    if s.status[y] != XWaiting && s.status[y] != XDepFail then s1
    else if s.xcode[x] != 0 then
      Complete(Failing(s1, y, s.xcode[x]), y)
    else if s1.dcount[y] != 0 then s1
    else if s.status[y] == XWaiting then AddBuild(s1, y)
    else Complete(s1, y)
  }

  /** The loop from edge i on, and the bookkeeping after it. */
  ghost function CompleteFrom(s: State, x: nat, i: nat): (r: State)
    requires WellFormed(s) && x < |s.status| && i <= |s.dbase[x]|
    ensures WellFormed(r) && SameRun(s, r)
    decreases Height(s.dbase, x), |s.dbase[x]| - i, 1
  {
    if i == |s.dbase[x]| then
      s.(status := s.status[x := XDone], nFinished := s.nFinished + 1)
    else
      CompleteFrom(Signal(s, x, i), x, i + 1)
  }

  ghost function Complete(s: State, x: nat): (r: State)
    requires WellFormed(s) && x < |s.status|
    ensures WellFormed(r) && SameRun(s, r)
    decreases Height(s.dbase, x), |s.dbase[x]|, 2
  {
    CompleteFrom(s.(aborted := s.aborted || (s.status[x] != XRun && s.status[x] != XDepFail)), x, 0)
  }

  // ---------------------------------------------------------------------
  // Counting dependency edges
  // ---------------------------------------------------------------------

  /** Occurrences of y in q from position i on. */
  function Occurrences(q: seq<nat>, i: nat, y: nat): nat
    decreases |q| - i
  {
    if i >= |q| then 0 else (if q[i] == y then 1 else 0) + Occurrences(q, i + 1, y)
  }

  /** Edges into y, from the first n items, that have not been signalled yet when
      the signals of each item x have got as far as position k[x]. */
  function Unsignalled(dbase: seq<seq<nat>>, k: seq<nat>, n: nat, y: nat): nat
    requires n <= |dbase| == |k|
  {
    if n == 0 then 0 else Unsignalled(dbase, k, n - 1, y) + Occurrences(dbase[n - 1], k[n - 1], y)
  }

  lemma {:induction false} UnsignalledAdvance(dbase: seq<seq<nat>>, k: seq<nat>, n: nat, x: nat, y: nat)
    requires n <= |dbase| == |k| && x < |k| && k[x] < |dbase[x]|
    ensures Unsignalled(dbase, k[x := k[x] + 1], n, y)
         == Unsignalled(dbase, k, n, y) - (if x < n && dbase[x][k[x]] == y then 1 else 0)
  {
    if n > 0 {
      UnsignalledAdvance(dbase, k, n - 1, x, y);
    }
  }

  lemma {:induction false} OccurrencesZero(q: seq<nat>, i: nat, y: nat)
    ensures Occurrences(q, i, y) == 0 <==> forall j :: i <= j < |q| ==> q[j] != y
    decreases |q| - i
  {
    if i < |q| {
      OccurrencesZero(q, i + 1, y);
    }
  }

  lemma {:induction false} UnsignalledZero(dbase: seq<seq<nat>>, k: seq<nat>, n: nat, y: nat)
    requires n <= |dbase| == |k|
    ensures Unsignalled(dbase, k, n, y) == 0
       <==> forall x, j :: 0 <= x < n && k[x] <= j < |dbase[x]| ==> dbase[x][j] != y
  {
    if n > 0 {
      UnsignalledZero(dbase, k, n - 1, y);
      OccurrencesZero(dbase[n - 1], k[n - 1], y);
    }
  }

  function CountDone(status: seq<Status>, n: nat): nat
    requires n <= |status|
  {
    if n == 0 then 0 else CountDone(status, n - 1) + (if status[n - 1] == XDone then 1 else 0)
  }

  lemma {:induction false} CountDoneUpdate(status: seq<Status>, n: nat, x: nat, v: Status)
    requires n <= |status| && x < |status|
    ensures CountDone(status[x := v], n) == CountDone(status, n)
      + (if x < n && v == XDone then 1 else 0) - (if x < n && status[x] == XDone then 1 else 0)
  {
    if n > 0 {
      CountDoneUpdate(status, n - 1, x, v);
    }
  }

  lemma {:induction false} CountDoneAll(status: seq<Status>, n: nat)
    requires n <= |status| && forall x :: 0 <= x < n ==> status[x] == XDone
    ensures CountDone(status, n) == n
  {
    if n > 0 {
      CountDoneAll(status, n - 1);
    }
  }

  // ---------------------------------------------------------------------
  // The invariant, also in the middle of a completion
  // ---------------------------------------------------------------------
  // `stack` holds the items whose completion is under way and k[x] how many
  // dependents of x have been signalled. Between completions stack is empty.

  ghost predicate Cursors(s: State, k: seq<nat>, stack: set<nat>)
    requires WellFormed(s)
  {
    && |k| == |s.status|
    && (forall x :: x in stack ==> x < |s.status| && (s.status[x] == XRun || s.status[x] == XDepFail))
    && (forall x :: 0 <= x < |k| ==> k[x] <= |s.dbase[x]|)
    && (forall x :: 0 <= x < |k| && x !in stack ==> k[x] == if s.status[x] == XDone then |s.dbase[x]| else 0)
  }

  ghost predicate Counts(s: State, k: seq<nat>)
    requires WellFormed(s) && |k| == |s.status|
  {
    forall y :: 0 <= y < |s.status| ==> s.dcount[y] == Unsignalled(s.dbase, k, |k|, y)
  }

  /** Every dependency of y has signalled y and succeeded. */
  ghost predicate Ready(s: State, k: seq<nat>, y: nat)
    requires WellFormed(s) && |k| == |s.status|
  {
    forall x, j :: 0 <= x < |s.dbase| && 0 <= j < |s.dbase[x]| && s.dbase[x][j] == y ==>
      j < k[x] && s.xcode[x] == 0
  }

  /** No failed dependency of y has signalled y. */
  ghost predicate Hopeful(s: State, k: seq<nat>, y: nat)
    requires WellFormed(s) && |k| == |s.status|
  {
    forall x, j :: 0 <= x < |s.dbase| && 0 <= j < |s.dbase[x]| && j < k[x] && s.dbase[x][j] == y ==>
      s.xcode[x] == 0
  }

  /** Some dependency of y, completed or completing, failed, and y carries its code. */
  ghost predicate Doomed(s: State, stack: set<nat>, y: nat)
    requires WellFormed(s) && y < |s.status|
  {
    exists x, j :: 0 <= x < |s.dbase| && 0 <= j < |s.dbase[x]| && s.dbase[x][j] == y
      && s.xcode[x] != 0 && s.xcode[x] == s.xcode[y] && (x in stack || s.status[x] == XDone)
  }

  ghost predicate ItemOk(s: State, k: seq<nat>, stack: set<nat>, y: nat)
    requires WellFormed(s) && |k| == |s.status| && y < |s.status|
  {
    match s.status[y]
    case XWaiting => s.dcount[y] > 0 && y !in s.started && Hopeful(s, k, y)
    case XDepFail => (y in stack || s.dcount[y] > 0) && y !in s.started && s.xcode[y] != 0 && Doomed(s, stack, y)
    case XBuild => y !in s.started && Ready(s, k, y)
    case XRun => y in s.started && Ready(s, k, y)
    case XDone => if y in s.started then Ready(s, k, y) else s.xcode[y] != 0 && Doomed(s, stack, y)
  }

  ghost predicate Lists(s: State, stack: set<nat>)
    requires WellFormed(s)
  {
    && Distinct(s.buildList) && Distinct(s.runList) && Distinct(s.started)
    && (forall y: nat :: y in s.started ==> y < |s.status|)
    && (forall y: nat :: y in s.buildList <==> y < |s.status| && s.status[y] == XBuild)
    && (forall y: nat :: y in s.runList <==> y < |s.status| && s.status[y] == XRun && y !in stack)
    && s.nRunning == |s.runList| <= s.nParallel
    && s.nFinished == CountDone(s.status, |s.status|)
    && !s.aborted
  }

  ghost predicate Items(s: State, k: seq<nat>, stack: set<nat>)
    requires WellFormed(s) && |k| == |s.status|
  {
    forall y :: 0 <= y < |s.status| ==> ItemOk(s, k, stack, y)
  }

  ghost predicate Mid(s: State, k: seq<nat>, stack: set<nat>) {
    && WellFormed(s) && Cursors(s, k, stack) && Counts(s, k)
    && Lists(s, stack) && Items(s, k, stack)
  }

  /** What a completion of the items in `except` leaves alone. */
  ghost predicate Frame(s: State, r: State, stack: set<nat>, except: set<nat>)
    requires WellFormed(s) && WellFormed(r) && |r.status| == |s.status|
  {
    forall z :: 0 <= z < |s.status| && z !in except && (z in stack || Engaged(s.status[z])) ==>
      r.status[z] == s.status[z] && r.xcode[z] == s.xcode[z]
  }

  /** Completed, queued or running. */
  predicate Engaged(status: Status) {
    status == XDone || status == XBuild || status == XRun
  }

  // ---------------------------------------------------------------------
  // Each step of a completion keeps the invariant
  // ---------------------------------------------------------------------

  /** Items on the stack other than x are higher than x. */
  ghost predicate Above(s: State, stack: set<nat>, x: nat) {
    x in stack && forall z :: z in stack && z != x ==> Height(s.dbase, z) > Height(s.dbase, x)
  }

  /** The decrement at the head of the loop body, and the cursors after it. */
  function Decremented(s: State, y: nat): State
    requires y < |s.dcount|
  {
    s.(dcount := s.dcount[y := s.dcount[y] - 1])
  }

  /** The assertion dcount > 0 holds, the item signalled is not on the stack, and
      after the decrement every other item is as it should be. */
  lemma Advance(s: State, k: seq<nat>, stack: set<nat>, x: nat)
    requires Mid(s, k, stack) && Above(s, stack, x) && k[x] < |s.dbase[x]|
    ensures var y := s.dbase[x][k[x]]; var s1 := Decremented(s, y); var k1 := k[x := k[x] + 1];
      && s.dcount[y] > 0 && y !in stack
      && WellFormed(s1) && Cursors(s1, k1, stack) && Counts(s1, k1) && Lists(s1, stack)
  {
    var y := s.dbase[x][k[x]];
    var k1 := k[x := k[x] + 1];
    DependentRank(s.dbase, x, k[x]);
    UnsignalledZero(s.dbase, k, |k|, y);
    forall z | 0 <= z < |s.status| ensures Decremented(s, y).dcount[z] == Unsignalled(s.dbase, k1, |k1|, z) {
      UnsignalledAdvance(s.dbase, k, |k|, x, z);
    }
  }

  lemma AdvanceOthers(s: State, k: seq<nat>, stack: set<nat>, x: nat, z: nat)
    requires Mid(s, k, stack) && Above(s, stack, x) && k[x] < |s.dbase[x]|
    requires z < |s.status| && z != s.dbase[x][k[x]]
    ensures var s1 := Decremented(s, s.dbase[x][k[x]]); WellFormed(s1) && ItemOk(s1, k[x := k[x] + 1], stack, z)
  {
    assert ItemOk(s, k, stack, z);
    AdvanceItem(s, k, stack, x, z);
  }

  lemma AdvanceItem(s: State, k: seq<nat>, stack: set<nat>, x: nat, z: nat)
    requires WellFormed(s) && |k| == |s.status| && x < |k| && k[x] < |s.dbase[x]|
    requires z < |s.status| && z != s.dbase[x][k[x]] && ItemOk(s, k, stack, z)
    ensures var s1 := Decremented(s, s.dbase[x][k[x]]); WellFormed(s1) && ItemOk(s1, k[x := k[x] + 1], stack, z)
  {
    var s1 := Decremented(s, s.dbase[x][k[x]]);
    var k1 := k[x := k[x] + 1];
    assert Doomed(s, stack, z) ==> Doomed(s1, stack, z);
    assert Ready(s, k, z) ==> Ready(s1, k1, z);
    assert Hopeful(s, k, z) ==> Hopeful(s1, k1, z);
  }

  /** The item signalled cannot be queued or running, nor have run. */
  lemma SignalledStatus(s: State, k: seq<nat>, stack: set<nat>, x: nat)
    requires Mid(s, k, stack) && x in stack && k[x] < |s.dbase[x]|
    ensures var y := s.dbase[x][k[x]];
      && s.status[y] != XBuild && s.status[y] != XRun
      && (s.status[y] == XDone ==> y !in s.started)
  {
    var y := s.dbase[x][k[x]];
    assert ItemOk(s, k, stack, y);
    assert !Ready(s, k, y);
  }

  /** The dependent has completed already: only its counter moves. */
  lemma SignalDone(s: State, k: seq<nat>, stack: set<nat>, x: nat)
    requires Mid(s, k, stack) && Above(s, stack, x) && k[x] < |s.dbase[x]|
    requires s.status[s.dbase[x][k[x]]] == XDone
    ensures Mid(Decremented(s, s.dbase[x][k[x]]), k[x := k[x] + 1], stack)
  {
    var y := s.dbase[x][k[x]];
    var s1 := Decremented(s, y);
    var k1 := k[x := k[x] + 1];
    Advance(s, k, stack, x);
    SignalledStatus(s, k, stack, x);
    forall z | 0 <= z < |s1.status| ensures ItemOk(s1, k1, stack, z) {
      if z == y {
        assert ItemOk(s, k, stack, y);
        assert Doomed(s, stack, y) ==> Doomed(s1, stack, y);
      } else {
        AdvanceOthers(s, k, stack, x, z);
      }
    }
  }

  /** A successful signal that is not the last one the dependent waits for. */
  lemma SignalMore(s: State, k: seq<nat>, stack: set<nat>, x: nat)
    requires Mid(s, k, stack) && Above(s, stack, x) && k[x] < |s.dbase[x]|
    requires s.xcode[x] == 0
    requires var y := s.dbase[x][k[x]]; s.dcount[y] != 1 && (s.status[y] == XWaiting || s.status[y] == XDepFail)
    ensures Mid(Decremented(s, s.dbase[x][k[x]]), k[x := k[x] + 1], stack)
  {
    var y := s.dbase[x][k[x]];
    var s1 := Decremented(s, y);
    var k1 := k[x := k[x] + 1];
    Advance(s, k, stack, x);
    forall z | 0 <= z < |s1.status| ensures ItemOk(s1, k1, stack, z) {
      if z == y {
        assert ItemOk(s, k, stack, y);
        assert Doomed(s, stack, y) ==> Doomed(s1, stack, y);
        assert Hopeful(s, k, y) ==> Hopeful(s1, k1, y);
      } else {
        AdvanceOthers(s, k, stack, x, z);
      }
    }
  }

  lemma QueueLists(s: State, stack: set<nat>, y: nat)
    requires WellFormed(s) && Lists(s, stack) && y < |s.status| && s.status[y] == XWaiting
    ensures WellFormed(AddBuild(s, y)) && Lists(AddBuild(s, y), stack)
  {
    CountDoneUpdate(s.status, |s.status|, y, XBuild);
    var r := AddBuild(s, y);
    forall z: nat ensures z in r.buildList <==> z < |r.status| && r.status[z] == XBuild {
      assert z in r.buildList <==> z in s.buildList || z == y;
    }
  }

  lemma QueueOthers(s: State, k: seq<nat>, stack: set<nat>, y: nat, z: nat)
    requires WellFormed(s) && |k| == |s.status| && y < |s.status| && s.status[y] == XWaiting
    requires z < |s.status| && z != y && ItemOk(s, k, stack, z)
    ensures WellFormed(AddBuild(s, y)) && ItemOk(AddBuild(s, y), k, stack, z)
  {
    var r := AddBuild(s, y);
    assert Doomed(s, stack, z) ==> Doomed(r, stack, z);
    assert Ready(s, k, z) ==> Ready(r, k, z);
    assert Hopeful(s, k, z) ==> Hopeful(r, k, z);
  }

  /** The last signal of a dependent none of whose dependencies failed. */
  lemma SignalLast(s: State, k: seq<nat>, stack: set<nat>, x: nat)
    requires Mid(s, k, stack) && Above(s, stack, x) && k[x] < |s.dbase[x]|
    requires s.xcode[x] == 0
    requires var y := s.dbase[x][k[x]]; s.dcount[y] == 1 && s.status[y] == XWaiting
    ensures var y := s.dbase[x][k[x]]; Mid(AddBuild(Decremented(s, y), y), k[x := k[x] + 1], stack)
  {
    var y := s.dbase[x][k[x]];
    var s1 := Decremented(s, y);
    var s2 := AddBuild(s1, y);
    var k1 := k[x := k[x] + 1];
    Advance(s, k, stack, x);
    QueueLists(s1, stack, y);
    assert Ready(s2, k1, y) by {
      assert ItemOk(s, k, stack, y);
      UnsignalledZero(s.dbase, k1, |k1|, y);
    }
    forall z | 0 <= z < |s2.status| ensures ItemOk(s2, k1, stack, z) {
      if z == y {
        assert ItemOk(s, k, stack, y);
      } else {
        AdvanceOthers(s, k, stack, x, z);
        QueueOthers(s1, k1, stack, y, z);
      }
    }
  }

  /** The dependent now completes as failed: it goes on the stack. */
  lemma FailLists(s: State, stack: set<nat>, y: nat, code: int)
    requires WellFormed(s) && Lists(s, stack) && y < |s.status|
    requires s.status[y] == XWaiting || s.status[y] == XDepFail
    ensures WellFormed(Failing(s, y, code)) && Lists(Failing(s, y, code), stack + {y})
  {
    CountDoneUpdate(s.status, |s.status|, y, XDepFail);
  }

  lemma FailOthers(s: State, k: seq<nat>, stack: set<nat>, y: nat, code: int, z: nat)
    requires WellFormed(s) && |k| == |s.status| && y < |s.status| && y !in stack && k[y] == 0
    requires s.status[y] == XWaiting || s.status[y] == XDepFail
    requires z < |s.status| && z != y && ItemOk(s, k, stack, z)
    ensures WellFormed(Failing(s, y, code)) && ItemOk(Failing(s, y, code), k, stack + {y}, z)
  {
    var r := Failing(s, y, code);
    assert Doomed(s, stack, z) ==> Doomed(r, stack + {y}, z);
    assert Ready(s, k, z) ==> Ready(r, k, z);
    assert Hopeful(s, k, z) ==> Hopeful(r, k, z);
  }

  lemma SignalFail(s: State, k: seq<nat>, stack: set<nat>, x: nat, code: int)
    requires Mid(s, k, stack) && Above(s, stack, x) && k[x] < |s.dbase[x]|
    requires var y := s.dbase[x][k[x]];
      || (s.xcode[x] != 0 && code == s.xcode[x] && (s.status[y] == XWaiting || s.status[y] == XDepFail))
      || (s.status[y] == XDepFail && code == s.xcode[y])
    ensures var y := s.dbase[x][k[x]];
      Mid(Failing(Decremented(s, y), y, code), k[x := k[x] + 1], stack + {y})
  {
    var y := s.dbase[x][k[x]];
    var s1 := Decremented(s, y);
    var s2 := Failing(s1, y, code);
    var k1 := k[x := k[x] + 1];
    Advance(s, k, stack, x);
    FailLists(s1, stack, y, code);
    assert ItemOk(s, k, stack, y);
    assert Doomed(s2, stack + {y}, y) by {
      if s.xcode[x] != 0 {
        assert s2.xcode[x] != 0 && s2.dbase[x][k[x]] == y;
      } else {
        assert Doomed(s, stack, y);
      }
    }
    forall z | 0 <= z < |s2.status| && z != y ensures ItemOk(s2, k1, stack + {y}, z) {
      AdvanceOthers(s, k, stack, x, z);
      FailOthers(s1, k1, stack, y, code, z);
    }
  }

  /** All dependents signalled: the item itself becomes XDone. */
  lemma FinishKeeps(s: State, k: seq<nat>, stack: set<nat>, x: nat)
    requires Mid(s, k, stack) && x in stack && k[x] == |s.dbase[x]|
    ensures Mid(s.(status := s.status[x := XDone], nFinished := s.nFinished + 1), k, stack - {x})
  {
    var r := s.(status := s.status[x := XDone], nFinished := s.nFinished + 1);
    var rest := stack - {x};
    CountDoneUpdate(s.status, |s.status|, x, XDone);
    forall z | 0 <= z < |r.status| ensures ItemOk(r, k, rest, z) {
      assert ItemOk(s, k, stack, z);
      assert Doomed(s, stack, z) ==> Doomed(r, rest, z);
      assert Ready(s, k, z) ==> Ready(r, k, z);
      assert Hopeful(s, k, z) ==> Hopeful(r, k, z);
    }
    assert Lists(r, rest);
  }

  /** A signal that does not start another completion. */
  lemma SignalQuiet(s: State, k: seq<nat>, stack: set<nat>, x: nat)
    requires Mid(s, k, stack) && Above(s, stack, x) && k[x] < |s.dbase[x]|
    requires var y := s.dbase[x][k[x]];
      s.status[y] == XDone || (s.xcode[x] == 0 && (s.dcount[y] != 1 || s.status[y] == XWaiting))
    ensures var r := Signal(s, x, k[x]);
      Mid(r, k[x := k[x] + 1], stack) && Frame(s, r, stack, {})
  {
    var y := s.dbase[x][k[x]];
    Advance(s, k, stack, x);
    SignalledStatus(s, k, stack, x);
    if s.status[y] == XDone {
      SignalDone(s, k, stack, x);
    } else if s.dcount[y] != 1 {
      SignalMore(s, k, stack, x);
    } else {
      SignalLast(s, k, stack, x);
    }
  }

  /** The dependent completes as failed: the state its completion begins in. */
  function Handed(s: State, x: nat, y: nat): State
    requires x < |s.xcode| && y < |s.xcode| && y < |s.dcount| && y < |s.status|
  {
    Failing(Decremented(s, y), y, if s.xcode[x] != 0 then s.xcode[x] else s.xcode[y])
  }

  lemma CompleteBegins(s: State, y: nat)
    requires WellFormed(s) && y < |s.status| && s.status[y] == XDepFail && !s.aborted
    ensures Complete(s, y) == CompleteFrom(s, y, 0)
  {
    assert s.(aborted := false) == s;
  }

  lemma HandedIs(s: State, x: nat, y: nat)
    requires x < |s.xcode| && y < |s.xcode| && y < |s.dcount| && y < |s.status|
    requires !s.aborted && s.xcode[x] != 0 && s.dcount[y] > 0
    ensures Failing(Checked(s, y), y, s.xcode[x]) == Handed(s, x, y)
  {
  }

  /** Because x failed. */
  lemma SignalHandsFailure(s: State, x: nat, i: nat)
    requires WellFormed(s) && x < |s.status| && i < |s.dbase[x]| && !s.aborted && s.xcode[x] != 0
    requires var y := s.dbase[x][i]; s.dcount[y] > 0 && (s.status[y] == XWaiting || s.status[y] == XDepFail)
    ensures var y := s.dbase[x][i]; WellFormed(Handed(s, x, y)) && Signal(s, x, i) == Complete(Handed(s, x, y), y)
  {
    SignalFails(s, x, i);
    HandedIs(s, x, s.dbase[x][i]);
  }

  lemma SignalFails(s: State, x: nat, i: nat)
    requires WellFormed(s) && x < |s.status| && i < |s.dbase[x]| && s.xcode[x] != 0
    requires s.status[s.dbase[x][i]] == XWaiting || s.status[s.dbase[x][i]] == XDepFail
    ensures var y := s.dbase[x][i]; var t := Failing(Checked(s, y), y, s.xcode[x]);
      WellFormed(t) && Signal(s, x, i) == Complete(t, y)
  {
  }

  /** Because another dependency failed and x was the last to be waited for. */
  lemma SignalHandsLast(s: State, x: nat, i: nat)
    requires WellFormed(s) && x < |s.status| && i < |s.dbase[x]| && !s.aborted && s.xcode[x] == 0
    requires var y := s.dbase[x][i]; s.dcount[y] == 1 && s.status[y] == XDepFail
    ensures var y := s.dbase[x][i]; WellFormed(Handed(s, x, y)) && Signal(s, x, i) == Complete(Handed(s, x, y), y)
  {
    var y := s.dbase[x][i];
    assert Handed(s, x, y) == Decremented(s, y);
  }

  lemma SignalHands(s: State, x: nat, i: nat)
    requires WellFormed(s) && x < |s.status| && i < |s.dbase[x]| && !s.aborted
    requires var y := s.dbase[x][i];
      && s.dcount[y] > 0 && (s.status[y] == XWaiting || s.status[y] == XDepFail)
      && (s.xcode[x] != 0 || (s.dcount[y] == 1 && s.status[y] != XWaiting))
    ensures var y := s.dbase[x][i];
      WellFormed(Handed(s, x, y)) && Signal(s, x, i) == CompleteFrom(Handed(s, x, y), y, 0)
  {
    var y := s.dbase[x][i];
    if s.xcode[x] != 0 {
      SignalHandsFailure(s, x, i);
    } else {
      SignalHandsLast(s, x, i);
    }
    CompleteBegins(Handed(s, x, y), y);
  }

  lemma HandedFrame(s: State, stack: set<nat>, x: nat, y: nat)
    requires WellFormed(s) && x < |s.status| && y < |s.status| && y !in stack
    requires s.status[y] == XWaiting || s.status[y] == XDepFail
    ensures WellFormed(Handed(s, x, y)) && Frame(s, Handed(s, x, y), stack, {})
  {
  }

  /** A signal that makes the dependent complete as failed. */
  lemma SignalNested(s: State, k: seq<nat>, stack: set<nat>, x: nat)
    requires Mid(s, k, stack) && Above(s, stack, x) && k[x] < |s.dbase[x]|
    requires var y := s.dbase[x][k[x]];
      s.status[y] != XDone && (s.xcode[x] != 0 || (s.dcount[y] == 1 && s.status[y] != XWaiting))
    ensures var y := s.dbase[x][k[x]];
      && Mid(Handed(s, x, y), k[x := k[x] + 1], stack + {y})
      && Signal(s, x, k[x]) == CompleteFrom(Handed(s, x, y), y, 0)
      && Frame(s, Handed(s, x, y), stack, {})
      && y !in stack && (s.status[y] == XWaiting || s.status[y] == XDepFail)
  {
    var y := s.dbase[x][k[x]];
    Advance(s, k, stack, x);
    SignalledStatus(s, k, stack, x);
    SignalHands(s, x, k[x]);
    HandedFrame(s, stack, x, y);
    SignalFail(s, k, stack, x, if s.xcode[x] != 0 then s.xcode[x] else s.xcode[y]);
  }

  /** The dependent signalled is lower than everything that is completing. */
  lemma NestedBelow(s: State, k: seq<nat>, stack: set<nat>, x: nat)
    requires Mid(s, k, stack) && Above(s, stack, x) && k[x] < |s.dbase[x]|
    ensures var y := s.dbase[x][k[x]];
      && Above(s, stack + {y}, y) && Height(s.dbase, y) < Height(s.dbase, x)
      && (s.status[y] != XDone ==> (s.status[y] == XWaiting || s.status[y] == XDepFail) && (y !in stack ==> k[y] == 0))
  {
    SignalledStatus(s, k, stack, x);
    DependentRank(s.dbase, x, k[x]);
  }

  /** One signal has been delivered: the invariant holds with the cursor of x moved on,
      and what was completing, completed, queued or running is as it was. */
  ghost predicate Signalled(s: State, k: seq<nat>, stack: set<nat>, x: nat, r: State, k': seq<nat>)
    requires Mid(s, k, stack) && x in stack
  {
    && Mid(r, k', stack) && |r.status| == |s.status| && Frame(s, r, stack, {})
    && k'[x] == k[x] + 1 && forall z :: z in stack && z != x ==> k'[z] == k[z]
  }

  lemma {:induction false} SignalNestedKeeps(s: State, k: seq<nat>, stack: set<nat>, x: nat) returns (k': seq<nat>)
    requires Mid(s, k, stack) && Above(s, stack, x) && k[x] < |s.dbase[x]|
    requires var y := s.dbase[x][k[x]];
      s.status[y] != XDone && (s.xcode[x] != 0 || (s.dcount[y] == 1 && s.status[y] != XWaiting))
    ensures Signalled(s, k, stack, x, Signal(s, x, k[x]), k')
    decreases Height(s.dbase, x), |s.dbase[x]| - k[x], 0
  {
    var y := s.dbase[x][k[x]];
    NestedBelow(s, k, stack, x);
    SignalNested(s, k, stack, x);
    k' := CompleteFromKeeps(Handed(s, x, y), k[x := k[x] + 1], stack + {y}, y);
    NestedDone(s, k, stack, x, Handed(s, x, y), Signal(s, x, k[x]), k');
  }

  /** Back from the nested completion of y. */
  lemma NestedDone(s: State, k: seq<nat>, stack: set<nat>, x: nat, t: State, r: State, k': seq<nat>)
    requires Mid(s, k, stack) && x in stack && k[x] < |s.dbase[x]| && WellFormed(t) && |t.status| == |s.status|
    requires var y := s.dbase[x][k[x]];
      && y !in stack && (s.status[y] == XWaiting || s.status[y] == XDepFail) && Frame(s, t, stack, {})
      && Mid(r, k', stack + {y} - {y}) && |r.status| == |t.status| && Frame(t, r, stack + {y} - {y}, {y})
      && forall z :: z in stack + {y} && z != y ==> k'[z] == k[x := k[x] + 1][z]
    ensures Signalled(s, k, stack, x, r, k')
  {
    var y := s.dbase[x][k[x]];
    assert stack + {y} - {y} == stack;
    FrameTrans(s, t, r, stack, y);
  }

  lemma {:induction false} SignalKeeps(s: State, k: seq<nat>, stack: set<nat>, x: nat) returns (k': seq<nat>)
    requires Mid(s, k, stack) && Above(s, stack, x) && k[x] < |s.dbase[x]|
    ensures Signalled(s, k, stack, x, Signal(s, x, k[x]), k')
    decreases Height(s.dbase, x), |s.dbase[x]| - k[x], 1
  {
    var y := s.dbase[x][k[x]];
    if s.status[y] == XDone || (s.xcode[x] == 0 && (s.dcount[y] != 1 || s.status[y] == XWaiting)) {
      k' := k[x := k[x] + 1];
      SignalQuiet(s, k, stack, x);
    } else {
      k' := SignalNestedKeeps(s, k, stack, x);
    }
  }

  lemma FrameTrans(s: State, t: State, r: State, stack: set<nat>, y: nat)
    requires WellFormed(s) && WellFormed(t) && WellFormed(r) && |r.status| == |t.status| == |s.status|
    requires Frame(s, t, stack, {}) && Frame(t, r, stack, {y})
    requires y < |s.status| && y !in stack && (s.status[y] == XWaiting || s.status[y] == XDepFail)
    ensures Frame(s, r, stack, {})
  {
  }

  /** A completion, from any point of its loop, keeps the invariant, changes no
      other item that is completing, completed, queued or running, and ends with
      x completed. */
  lemma {:induction false} CompleteFromKeeps(s: State, k: seq<nat>, stack: set<nat>, x: nat) returns (k': seq<nat>)
    requires Mid(s, k, stack) && Above(s, stack, x)
    ensures var r := CompleteFrom(s, x, k[x]);
      && Mid(r, k', stack - {x}) && Frame(s, r, stack - {x}, {x})
      && r.status[x] == XDone && r.xcode[x] == s.xcode[x]
      && forall z :: z in stack && z != x ==> k'[z] == k[z]
    decreases Height(s.dbase, x), |s.dbase[x]| - k[x], 2
  {
    if k[x] == |s.dbase[x]| {
      FinishKeeps(s, k, stack, x);
      k' := k;
    } else {
      var k1 := SignalKeeps(s, k, stack, x);
      k' := CompleteFromKeeps(Signal(s, x, k[x]), k1, stack, x);
    }
  }
}
