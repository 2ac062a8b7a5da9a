/** Runs of the build scheduler: starting a build, failing to fork and reaping a
    child, in any order, and what holds in every state and at the end. */
module FbulkRuns {
  import opened Sequences
  import opened Fbulk

  /** What the operating system can answer: a child was forked, no child could be
      forked, or a child ended with an exit code. */
  datatype Event = Forked(pid: int) | ForkFailed | Reaped(pid: int, code: int)

  const FORK_FAILED_CODE := -98

  ghost function Settled(s: State): seq<nat>
    requires WellFormed(s)
  {
    seq(|s.status|, x requires 0 <= x < |s.status| => if s.status[x] == XDone then |s.dbase[x]| else 0)
  }

  /** The invariant between completions. */
  ghost predicate Inv(s: State) {
    WellFormed(s) && Mid(s, Settled(s), {})
  }

  predicate CanStart(s: State) {
    s.nRunning < s.nParallel && s.buildList != []
  }

  predicate InRange(s: State) {
    && |s.xcode| == |s.status| && |s.pid| == |s.status|
    && (forall i :: 0 <= i < |s.buildList| ==> s.buildList[i] < |s.status|)
    && (forall i :: 0 <= i < |s.runList| ==> s.runList[i] < |s.status|)
  }

  /** The head of the build list leaves it and enters XRun. */
  function Dequeue(s: State): State
    requires InRange(s) && s.buildList != []
  {
    var x := s.buildList[0];
    s.(buildList := s.buildList[1..], status := s.status[x := XRun], started := s.started + [x])
  }

  /** The parent tracks the child it forked. */
  function Track(s: State, x: nat, pid: int): State
    requires x < |s.pid|
  {
    s.(pid := s.pid[x := pid], runList := [x] + s.runList, nRunning := s.nRunning + 1, nBuilt := s.nBuilt + 1)
  }

  /** No child: the item is about to complete with a code of its own. */
  function Unforked(s: State, x: nat, pid: int): State
    requires x < |s.pid| && x < |s.xcode|
  {
    s.(pid := s.pid[x := pid], xcode := s.xcode[x := FORK_FAILED_CODE])
  }

  /** The child at position i of the run list has ended. */
  function Collect(s: State, i: nat, code: int): State
    requires InRange(s) && i < |s.runList|
  {
    s.(runList := s.runList[..i] + s.runList[i + 1..], xcode := s.xcode[s.runList[i] := code],
       nRunning := s.nRunning - 1)
  }

  ghost predicate IsForkFailure(s: State, pid: int, r: State)
    requires WellFormed(s) && InRange(s) && s.buildList != []
  {
    r == Complete(Unforked(Dequeue(s), s.buildList[0], pid), s.buildList[0])
  }

  ghost predicate IsReap(s: State, i: nat, pid: int, code: int, r: State)
    requires WellFormed(s) && InRange(s) && i < |s.runList|
  {
    s.pid[s.runList[i]] == pid && r == Complete(Collect(s, i, code), s.runList[i])
  }

  ghost predicate Next(s: State, e: Event, r: State)
    requires WellFormed(s) && InRange(s)
  {
    match e
    case Forked(pid) => CanStart(s) && pid > 0 && r == Track(Dequeue(s), s.buildList[0], pid)
    case ForkFailed => CanStart(s) && (exists pid :: pid < 0 && IsForkFailure(s, pid, r))
    case Reaped(pid, code) => 0 <= code < 256 && (exists i: nat :: i < |s.runList| && IsReap(s, i, pid, code, r))
  }

  ghost predicate IsRun(states: seq<State>, events: seq<Event>) {
    && |states| == |events| + 1
    && (forall i :: 0 <= i < |states| ==> WellFormed(states[i]) && InRange(states[i]))
    && forall i :: 0 <= i < |events| ==> Next(states[i], events[i], states[i + 1])
  }

  // ---------------------------------------------------------------------
  // Every event keeps the invariant
  // ---------------------------------------------------------------------

  lemma InvInRange(s: State)
    requires Inv(s)
    ensures InRange(s)
  {
    forall i | 0 <= i < |s.buildList| ensures s.buildList[i] < |s.status| {
      assert s.buildList[i] in s.buildList;
    }
    forall i | 0 <= i < |s.runList| ensures s.runList[i] < |s.status| {
      assert s.runList[i] in s.runList;
    }
  }

  lemma SettledUnique(s: State, k: seq<nat>)
    requires Mid(s, k, {})
    ensures k == Settled(s) && Inv(s)
  {
  }

  /** Moving x between XBuild and XRun, or giving it a code, disturbs no other item. */
  lemma Unchanged(s: State, r: State, k: seq<nat>, rest: set<nat>, x: nat, z: nat)
    requires WellFormed(s) && WellFormed(r) && r.dbase == s.dbase && |k| == |s.status| == |r.status|
    requires x < |s.status| && z < |s.status| && z != x && k[x] == 0 && s.status[x] != XDone && r.status[x] != XDone
    requires rest <= {x}
    requires r.dcount == s.dcount && r.status == s.status[x := r.status[x]] && r.xcode == s.xcode[x := r.xcode[x]]
    requires z in r.started <==> z in s.started
    requires ItemOk(s, k, {}, z)
    ensures ItemOk(r, k, rest, z)
  {
    assert Doomed(s, {}, z) ==> Doomed(r, rest, z);
    assert Ready(s, k, z) ==> Ready(r, k, z);
    assert Hopeful(s, k, z) ==> Hopeful(r, k, z);
  }

  lemma DequeueLists(s: State)
    requires Inv(s) && CanStart(s)
    ensures InRange(s) && WellFormed(Dequeue(s)) && Lists(Dequeue(s), {s.buildList[0]})
  {
    InvInRange(s);
    var x := s.buildList[0];
    var r := Dequeue(s);
    assert x in s.buildList;
    assert ItemOk(s, Settled(s), {}, x);
    CountDoneUpdate(s.status, |s.status|, x, XRun);
    forall y: nat ensures y in r.buildList <==> y < |r.status| && r.status[y] == XBuild {
      assert s.buildList == [x] + r.buildList;
      assert y in s.buildList <==> y == x || y in r.buildList;
      if y in r.buildList {
        var i :| 0 <= i < |r.buildList| && r.buildList[i] == y;
        assert s.buildList[i + 1] == y;
      }
    }
  }

  /** A build that starts: all its dependencies have succeeded, it never ran
      before, and its completion could begin at once. */
  lemma StartKeeps(s: State, pid: int, code: int)
    requires Inv(s) && CanStart(s)
    ensures InRange(s) && s.buildList[0] !in s.started && Ready(s, Settled(s), s.buildList[0])
    ensures var x := s.buildList[0];
      Mid(Dequeue(s).(pid := s.pid[x := pid], xcode := s.xcode[x := code]), Settled(s), {x})
  {
    InvInRange(s);
    DequeueLists(s);
    var x := s.buildList[0];
    var k := Settled(s);
    var r := Dequeue(s).(pid := s.pid[x := pid], xcode := s.xcode[x := code]);
    assert x in s.buildList;
    assert ItemOk(s, k, {}, x);
    assert Ready(r, k, x);
    forall z | 0 <= z < |r.status| && z != x ensures ItemOk(r, k, {x}, z) {
      assert ItemOk(s, k, {}, z);
      Unchanged(s, r, k, {x}, x, z);
    }
  }

  lemma TrackLists(m: State, x: nat, pid: int)
    requires WellFormed(m) && Lists(m, {x}) && x < |m.status| && m.status[x] == XRun && m.nRunning < m.nParallel
    ensures WellFormed(Track(m, x, pid)) && Lists(Track(m, x, pid), {})
  {
    var r := Track(m, x, pid);
    forall y: nat ensures y in r.runList <==> y < |r.status| && r.status[y] == XRun && y !in {} {
      assert y in r.runList <==> y == x || y in m.runList;
    }
  }

  lemma TrackKeeps(s: State, pid: int)
    requires Inv(s) && CanStart(s)
    ensures InRange(s) && Inv(Track(Dequeue(s), s.buildList[0], pid))
  {
    InvInRange(s);
    DequeueLists(s);
    var x := s.buildList[0];
    var k := Settled(s);
    var r := Track(Dequeue(s), x, pid);
    TrackLists(Dequeue(s), x, pid);
    assert x in s.buildList;
    assert ItemOk(s, k, {}, x);
    assert Ready(r, k, x);
    forall z | 0 <= z < |r.status| && z != x ensures ItemOk(r, k, {}, z) {
      assert ItemOk(s, k, {}, z);
      Unchanged(s, r, k, {}, x, z);
    }
    SettledUnique(r, k);
  }

  lemma CollectLists(s: State, i: nat, code: int)
    requires Inv(s) && i < |s.runList|
    ensures InRange(s) && WellFormed(Collect(s, i, code)) && Lists(Collect(s, i, code), {s.runList[i]})
  {
    InvInRange(s);
    var x := s.runList[i];
    var r := Collect(s, i, code);
    TakenOut(s.runList, i);
  }

  lemma TakenOut(q: seq<nat>, i: nat)
    requires Distinct(q) && i < |q|
    ensures var r := q[..i] + q[i + 1..];
      Distinct(r) && forall y: nat :: y in r <==> y in q && y != q[i]
  {
    var r := q[..i] + q[i + 1..];
    assert forall j :: 0 <= j < |r| ==> r[j] == q[if j < i then j else j + 1];
    forall y: nat | y in q && y != q[i] ensures y in r {
      var j :| 0 <= j < |q| && q[j] == y;
      assert r[if j < i then j else j - 1] == y;
    }
  }

  lemma CollectKeeps(s: State, i: nat, code: int)
    requires Inv(s) && i < |s.runList|
    ensures InRange(s) && Mid(Collect(s, i, code), Settled(s), {s.runList[i]})
  {
    InvInRange(s);
    CollectLists(s, i, code);
    var x := s.runList[i];
    var k := Settled(s);
    var r := Collect(s, i, code);
    assert x in s.runList;
    assert ItemOk(s, k, {}, x);
    assert Ready(r, k, x);
    forall z | 0 <= z < |r.status| && z != x ensures ItemOk(r, k, {x}, z) {
      assert ItemOk(s, k, {}, z);
      Unchanged(s, r, k, {x}, x, z);
    }
  }

  /** A completion that begins with an empty stack ends with the invariant. */
  lemma CompleteKeeps(s: State, k: seq<nat>, x: nat)
    requires Mid(s, k, {x}) && k[x] == 0
    ensures Inv(Complete(s, x)) && Frame(s, Complete(s, x), {}, {x})
    ensures Complete(s, x).status[x] == XDone && Complete(s, x).xcode[x] == s.xcode[x]
  {
    var k' := CompleteFromKeeps(s, k, {x}, x);
    assert {x} - {x} == {};
    SettledUnique(Complete(s, x), k');
  }

  /** Completed items never change again, and `started` only grows. */
  ghost predicate Later(s: State, r: State)
    requires WellFormed(s) && WellFormed(r)
  {
    && r.dbase == s.dbase && |r.status| == |s.status| && s.started <= r.started
    && forall z :: 0 <= z < |s.status| && s.status[z] == XDone ==> r.status[z] == XDone && r.xcode[z] == s.xcode[z]
  }

  /** Item x has completed with the code, and what else was running still runs under its pid. */
  ghost predicate Ended(s: State, r: State, x: nat, code: int)
    requires WellFormed(s) && WellFormed(r) && |r.status| == |s.status|
  {
    && x < |s.status| && s.status[x] != XDone && r.status[x] == XDone && r.xcode[x] == code
    && forall z :: 0 <= z < |s.status| && z != x && s.status[z] == XRun ==>
      r.status[z] == XRun && r.pid[z] == s.pid[z]
  }

  /** Item x is running as the child pid, and what else was running still runs under its pid. */
  ghost predicate Running(s: State, r: State, x: nat, pid: int)
    requires WellFormed(s) && WellFormed(r) && |r.status| == |s.status|
  {
    && x < |s.status| && s.status[x] != XRun && r.status[x] == XRun && r.pid[x] == pid
    && forall z :: 0 <= z < |s.status| && s.status[z] == XRun ==> r.status[z] == XRun && r.pid[z] == s.pid[z]
  }

  /** What one event does to exit codes and pids: a fork makes the head of the build list
      run under the child's pid; without a child it completes with code -98; a child that
      ended completes a running item of its pid with exactly the child's exit code. */
  ghost predicate Recorded(s: State, e: Event, r: State)
    requires WellFormed(s) && WellFormed(r) && |r.status| == |s.status|
  {
    match e
    case Forked(pid) => s.buildList != [] && Running(s, r, s.buildList[0], pid)
    case ForkFailed => s.buildList != [] && Ended(s, r, s.buildList[0], -98)
    case Reaped(pid, code) => exists x :: x in s.runList && x < |s.pid| && s.pid[x] == pid && Ended(s, r, x, code)
  }

  lemma ForkedKeeps(s: State, pid: int)
    requires Inv(s) && CanStart(s)
    ensures InRange(s) && Inv(Track(Dequeue(s), s.buildList[0], pid))
    ensures Later(s, Track(Dequeue(s), s.buildList[0], pid))
    ensures Running(s, Track(Dequeue(s), s.buildList[0], pid), s.buildList[0], pid)
  {
    TrackKeeps(s, pid);
    assert s.buildList[0] in s.buildList;
  }

  lemma ForkFailedKeeps(s: State, pid: int, r: State)
    requires Inv(s) && InRange(s) && CanStart(s) && IsForkFailure(s, pid, r)
    ensures Inv(r) && Later(s, r) && r.started == s.started + [s.buildList[0]]
    ensures CountDone(r.status, |r.status|) > CountDone(s.status, |s.status|)
    ensures Ended(s, r, s.buildList[0], -98)
  {
    var x := s.buildList[0];
    assert x in s.buildList;
    StartKeeps(s, pid, FORK_FAILED_CODE);
    var m := Unforked(Dequeue(s), x, pid);
    CompleteKeeps(m, Settled(s), x);
    CountDoneUpdate(s.status, |s.status|, x, XRun);
    DoneGrows(m, r, x);
  }

  lemma ReapedKeeps(s: State, i: nat, pid: int, code: int, r: State)
    requires Inv(s) && InRange(s) && i < |s.runList| && IsReap(s, i, pid, code, r)
    ensures Inv(r) && Later(s, r) && r.started == s.started
    ensures CountDone(r.status, |r.status|) > CountDone(s.status, |s.status|)
    ensures Ended(s, r, s.runList[i], code)
  {
    var x := s.runList[i];
    assert x in s.runList;
    CollectKeeps(s, i, code);
    var m := Collect(s, i, code);
    CompleteKeeps(m, Settled(s), x);
    DoneGrows(m, r, x);
  }

  lemma {:induction false} CountDoneMono(a: seq<Status>, b: seq<Status>, n: nat)
    requires n <= |a| == |b| && forall z :: 0 <= z < n && a[z] == XDone ==> b[z] == XDone
    ensures CountDone(a, n) <= CountDone(b, n) <= n
  {
    if n > 0 {
      CountDoneMono(a, b, n - 1);
    }
  }

  lemma DoneGrows(s: State, r: State, x: nat)
    requires |s.status| == |r.status| && x < |s.status| && s.status[x] != XDone && r.status[x] == XDone
    requires forall z :: 0 <= z < |s.status| && s.status[z] == XDone ==> r.status[z] == XDone
    ensures CountDone(r.status, |r.status|) > CountDone(s.status, |s.status|)
  {
    CountDoneUpdate(s.status, |s.status|, x, XDone);
    CountDoneMono(s.status[x := XDone], r.status, |r.status|);
  }

  /** One event keeps the invariant, never takes back a completion, either starts an
      item or completes one, and completes it with the code the system reported. */
  lemma NextKeeps(s: State, e: Event, r: State)
    requires Inv(s) && InRange(s) && Next(s, e, r)
    ensures Inv(r) && Later(s, r)
    ensures |r.started| + CountDone(r.status, |r.status|) > |s.started| + CountDone(s.status, |s.status|)
    ensures e.Reaped? ==> r.started == s.started
    ensures !e.Reaped? ==> r.started == s.started + [s.buildList[0]]
    ensures Recorded(s, e, r)
  {
    match e
    case Forked(pid) =>
      ForkedKeeps(s, pid);
      CountDoneMono(s.status, r.status, |s.status|);
    case ForkFailed =>
      var pid :| pid < 0 && IsForkFailure(s, pid, r);
      ForkFailedKeeps(s, pid, r);
    case Reaped(pid, code) =>
      var i: nat :| i < |s.runList| && IsReap(s, i, pid, code, r);
      ReapedKeeps(s, i, pid, code, r);
  }

  lemma RunKeepsInv(states: seq<State>, events: seq<Event>, i: nat)
    requires IsRun(states, events) && Inv(states[0]) && i < |states|
    ensures Inv(states[i])
  {
    for m := 0 to i
      invariant Inv(states[m])
    {
      NextKeeps(states[m], events[m], states[m + 1]);
    }
  }

  lemma RunKeeps(states: seq<State>, events: seq<Event>, i: nat, j: nat)
    requires IsRun(states, events) && Inv(states[0]) && i <= j < |states|
    ensures Inv(states[i]) && Inv(states[j]) && Later(states[i], states[j])
  {
    RunKeepsInv(states, events, i);
    RunKeepsInv(states, events, j);
    forall m | i <= m < j ensures Later(states[m], states[m + 1]) {
      RunKeepsInv(states, events, m);
      NextKeeps(states[m], events[m], states[m + 1]);
    }
    RunLater(states, i, j);
  }

  lemma RunLater(states: seq<State>, i: nat, j: nat)
    requires i <= j < |states| && forall m :: 0 <= m < |states| ==> WellFormed(states[m])
    requires forall m :: i <= m < j ==> Later(states[m], states[m + 1])
    ensures Later(states[i], states[j])
  {
    for m := i to j
      invariant Later(states[i], states[m])
    {
      LaterTrans(states[i], states[m], states[m + 1]);
    }
  }

  lemma LaterTrans(s: State, t: State, r: State)
    requires WellFormed(s) && WellFormed(t) && WellFormed(r) && Later(s, t) && Later(t, r)
    ensures Later(s, r)
  {
  }
}
