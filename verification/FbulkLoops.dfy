/** The loops of xbps-fbulk as runs of the machine: runBuilds starts builds until none
    can start and then reaps, and main waits for a child and runs builds again until
    nothing is running. */
module FbulkLoops {
  import opened Fbulk
  import opened FbulkRuns

  /** Which events a stretch of a run may have. */
  datatype Stretch = Starting | Reaping | Mixed

  predicate Allowed(w: Stretch, e: Event) {
    match w
    case Starting => !e.Reaped?
    case Reaping => e.Reaped?
    case Mixed => true
  }

  ghost predicate IsStretch(w: Stretch, states: seq<State>, events: seq<Event>) {
    IsRun(states, events) && forall i :: 0 <= i < |events| ==> Allowed(w, events[i])
  }

  /** Some run of such events leads from s to r. */
  ghost predicate Leads(w: Stretch, s: State, r: State) {
    exists states, events :: IsStretch(w, states, events) && states[0] == s && states[|events|] == r
  }

  lemma LeadsSelf(w: Stretch, s: State)
    requires Inv(s)
    ensures Leads(w, s, s)
  {
    InvInRange(s);
    var states: seq<State>, events: seq<Event> := [s], [];
    assert IsStretch(w, states, events);
    assert states[|events|] == s;
  }

  lemma LeadsNext(w: Stretch, s: State, m: State, e: Event, r: State)
    requires Leads(w, s, m) && Inv(m) && InRange(m) && Next(m, e, r) && Allowed(w, e)
    ensures Leads(w, s, r) && Inv(r)
  {
    var states, events :| IsStretch(w, states, events) && states[0] == s && states[|events|] == m;
    NextKeeps(m, e, r);
    InvInRange(r);
    StretchExtend(w, states, events, e, r);
    assert (states + [r])[|events + [e]|] == r;
  }

  lemma StretchExtend(w: Stretch, states: seq<State>, events: seq<Event>, e: Event, r: State)
    requires IsStretch(w, states, events) && Allowed(w, e)
    requires WellFormed(r) && InRange(r) && Next(states[|events|], e, r)
    ensures IsStretch(w, states + [r], events + [e])
  {
    var states', events' := states + [r], events + [e];
    forall i | 0 <= i < |events'| ensures Next(states'[i], events'[i], states'[i + 1]) {
      assert i < |events| ==> Next(states[i], events[i], states[i + 1]);
    }
  }

  lemma LeadsLater(w: Stretch, s: State, r: State)
    requires Inv(s) && Leads(w, s, r)
    ensures Inv(r) && Later(s, r)
  {
    var states, events :| IsStretch(w, states, events) && states[0] == s && states[|events|] == r;
    RunKeeps(states, events, 0, |events|);
  }

  /** A stretch is a piece of a run. */
  lemma LeadsTrans(w: Stretch, s: State, m: State, r: State)
    requires Inv(m) && Leads(Mixed, s, m) && Leads(w, m, r)
    ensures Leads(Mixed, s, r)
  {
    var states, events :| IsStretch(w, states, events) && states[0] == m && states[|events|] == r;
    for i := 0 to |events|
      invariant Leads(Mixed, s, states[i]) && Inv(states[i])
    {
      LeadsNext(Mixed, s, states[i], events[i], states[i + 1]);
    }
  }

  // ---------------------------------------------------------------------
  // runBuilds and the drain loop
  // ---------------------------------------------------------------------

  /** runBuilds: starts until no build can start, then any number of reaps. */
  ghost predicate RunsBuilds(s: State, r: State) {
    exists m :: Leads(Starting, s, m) && !CanStart(m) && Leads(Reaping, m, r)
  }

  /** One turn of the drain loop: something is running, one child is waited for, and
      runBuilds follows. */
  ghost predicate Turn(s: State, r: State) {
    && WellFormed(s) && InRange(s) && s.runList != []
    && exists pid, code, m :: Next(s, Reaped(pid, code), m) && RunsBuilds(m, r)
  }

  /** The states at the head of the drain loop. */
  ghost predicate Turns(s: State, q: seq<State>) {
    && q != []
    && if |q| == 1 then RunsBuilds(s, q[0])
       else Turns(s, q[..|q| - 1]) && Turn(q[|q| - 2], q[|q| - 1])
  }

  /** The drain loop, entered at s, is at r. */
  ghost predicate Drains(s: State, r: State) {
    exists q :: Turns(s, q) && q[|q| - 1] == r
  }

  lemma TurnsOnce(s: State, r: State)
    requires RunsBuilds(s, r)
    ensures Turns(s, [r])
  {
  }

  lemma DrainsBy(s: State, q: seq<State>)
    requires Turns(s, q)
    ensures Drains(s, q[|q| - 1])
  {
  }

  lemma TurnsAppend(s: State, q: seq<State>, r: State)
    requires Turns(s, q) && Turn(q[|q| - 1], r)
    ensures Turns(s, q + [r])
  {
    Appended(q, r);
  }

  lemma Appended<T>(q: seq<T>, r: T)
    requires q != []
    ensures var q' := q + [r];
      |q'| > 1 && q'[..|q'| - 1] == q && q'[|q'| - 2] == q[|q| - 1] && q'[|q'| - 1] == r
  {
  }

  lemma RunsBuildsLeads(s: State, m: State, r: State)
    requires Inv(m) && Leads(Mixed, s, m) && RunsBuilds(m, r)
    ensures Inv(r) && Leads(Mixed, s, r)
  {
    var t :| Leads(Starting, m, t) && !CanStart(t) && Leads(Reaping, t, r);
    LeadsLater(Starting, m, t);
    LeadsTrans(Starting, s, m, t);
    LeadsLater(Reaping, t, r);
    LeadsTrans(Reaping, s, t, r);
  }

  lemma {:induction false} TurnsLead(s: State, q: seq<State>)
    requires Inv(s) && Turns(s, q)
    ensures Inv(q[|q| - 1]) && Leads(Mixed, s, q[|q| - 1])
    decreases |q|
  {
    if |q| == 1 {
      LeadsSelf(Mixed, s);
      RunsBuildsLeads(s, s, q[0]);
    } else {
      var t, r := q[|q| - 2], q[|q| - 1];
      TurnsLead(s, q[..|q| - 1]);
      var pid, code, m :| Next(t, Reaped(pid, code), m) && RunsBuilds(m, r);
      LeadsNext(Mixed, s, t, Reaped(pid, code), m);
      RunsBuildsLeads(s, m, r);
    }
  }

  /** Where the drain loop can be is reached by a run. */
  lemma DrainsLeads(s: State, r: State)
    requires Inv(s) && Drains(s, r)
    ensures Inv(r) && Leads(Mixed, s, r)
  {
    var q :| Turns(s, q) && q[|q| - 1] == r;
    TurnsLead(s, q);
  }
}
