/** When planning fails, and with which code. */
module FilePlanResult {
  import opened Wrappers
  import opened TransactionFiles
  import opened FilePlan

  ghost function IndicesBeneath(items: seq<Item>, n: nat, dir: string): set<nat>
    requires n <= |items|
  {
    set j: nat | j < n && Beneath(dir, items[j].file)
  }

  lemma {:induction false} CountIsCard(items: seq<Item>, n: nat, dir: string)
    requires n <= |items|
    ensures CountBeneath(items, n, dir) == |IndicesBeneath(items, n, dir)|
  {
    if n > 0 {
      CountIsCard(items, n - 1, dir);
      var low := IndicesBeneath(items, n - 1, dir);
      if Beneath(dir, items[n - 1].file) {
        assert IndicesBeneath(items, n, dir) == low + {n - 1};
      } else {
        assert IndicesBeneath(items, n, dir) == low;
      }
    }
  }

  /** The directory cannot make way: it cannot be read, or something tracked beneath it
      stays, or it holds more entries than are tracked beneath it. */
  ghost predicate Occupied(items: seq<Item>, d: nat, env: Env)
    requires d < |items|
  {
    var dir := items[d].file;
    match env.dir(dir)
    case Missing => false
    case Unreadable => true
    case Listed(visible) =>
      || (exists j :: 0 <= j < |items| && Beneath(dir, items[j].file) && !CountsDeleted(items[j], env))
      || visible > |IndicesBeneath(items, |items|, dir)|
  }

  /** A file or link is to replace the directory, which cannot make way. */
  ghost predicate Obstructed(items: seq<Item>, d: nat, env: Env) {
    d < |items| && Replaced(items[d]) && items[d].file !in env.preserved && Occupied(items, d, env)
  }

  lemma MarkedIff(items: seq<Item>, n: nat, env: Env, j: nat)
    requires OnePerPath(items) && j < n <= |items|
    ensures MarkedIn(items, n, env, items[j].file) <==> CountsDeleted(items[j], env)
  {
    if CountsDeleted(items[j], env) {
      assert Marks(items, n, env, items[j].file, j);
    }
  }

  lemma BeneathBefore(items: seq<Item>, d: nat)
    requires LongestFirst(items) && d < |items|
    ensures forall j :: 0 <= j < |items| && Beneath(items[d].file, items[j].file) ==> j < d
    ensures IndicesBeneath(items, d, items[d].file) == IndicesBeneath(items, |items|, items[d].file)
  {
  }

  lemma CanDeleteIff(items: seq<Item>, d: nat, env: Env, st: Plan)
    requires OnePerPath(items) && LongestFirst(items) && d < |items| && ExactUpTo(items, d, env, st)
    ensures CanDeleteDirectory(items, d, st.deleted, items[d].file, env.dir(items[d].file))
      <==> !Occupied(items, d, env)
  {
    var dir := items[d].file;
    CountIsCard(items, d, dir);
    BeneathBefore(items, d);
    forall j | 0 <= j < d ensures items[j].file in st.deleted <==> CountsDeleted(items[j], env) {
      MarkedIff(items, d, env, j);
    }
  }

  lemma VisitFailsIff(items: seq<Item>, d: nat, env: Env, st: Plan)
    requires Owned(items) && OnePerPath(items) && LongestFirst(items) && d < |items|
    requires !st.failed && ExactUpTo(items, d, env, st)
    ensures Visit(items, d, env, st).failed <==> Obstructed(items, d, env)
    ensures Visit(items, d, env, st).failed ==> Visit(items, d, env, st).rv == ENOTEMPTY
  {
    CanDeleteIff(items, d, env, st);
  }

  ghost predicate ObstructedBefore(items: seq<Item>, n: nat, env: Env) {
    exists d: nat :: d < n && Obstructed(items, d, env)
  }

  lemma ObstructedNext(items: seq<Item>, n: nat, m: nat, env: Env)
    requires m == n + 1
    ensures ObstructedBefore(items, m, env) <==> ObstructedBefore(items, n, env) || Obstructed(items, n, env)
  {
    if ObstructedBefore(items, n, env) {
      var d: nat :| d < n && Obstructed(items, d, env);
    }
  }

  lemma FailsNext(items: seq<Item>, n: nat, env: Env)
    requires Owned(items) && OnePerPath(items) && LongestFirst(items) && n < |items|
    requires FailsAsSaid(items, n, env)
    ensures FailsAsSaid(items, n + 1, env)
  {
    ObstructedNext(items, n, n + 1, env);
    var st := PlanUpTo(items, n, env);
    if !st.failed {
      VisitFailsIff(items, n, env, st);
      if !Visit(items, n, env, st).failed {
        ExactNext(items, n, env, st);
      }
    }
  }

  ghost predicate FailsAsSaid(items: seq<Item>, n: nat, env: Env)
    requires Owned(items) && n <= |items|
  {
    var p := PlanUpTo(items, n, env);
    && (p.failed <==> ObstructedBefore(items, n, env))
    && (p.failed ==> p.rv == ENOTEMPTY)
    && (!p.failed ==> ExactUpTo(items, n, env, p))
  }

  /** Planning fails, with ENOTEMPTY, exactly when some directory is to be replaced by a
      file or link, is not preserved and cannot make way. */
  lemma PlanFailsIff(items: seq<Item>, env: Env)
    requires Owned(items) && OnePerPath(items) && LongestFirst(items)
    ensures var p := PlanUpTo(items, |items|, env);
      && (p.failed <==> ObstructedBefore(items, |items|, env))
      && (p.failed ==> p.rv == ENOTEMPTY)
  {
    assert FailsAsSaid(items, 0, env);
    for n := 0 to |items|
      invariant FailsAsSaid(items, n, env)
    {
      FailsNext(items, n, env);
    }
  }

  // ---------------------------------------------------------------------
  // The code of a plan that did not fail
  // ---------------------------------------------------------------------

  /** The item's checksum is compared with the file. */
  predicate Compared(it: Item, env: Env) {
    Touchable(it, env) && it.gone.value.sha256.Some?
  }

  /** Item i is the last one before position n whose checksum was compared. */
  ghost predicate LastCompared(items: seq<Item>, n: nat, env: Env, i: nat) {
    i < n <= |items| && Compared(items[i], env) && forall j :: i < j < n ==> !Compared(items[j], env)
  }

  function CodeOfCheck(c: ShaCheck): int {
    if c.ReadError? then c.errno else 0
  }

  lemma VisitCode(items: seq<Item>, i: nat, env: Env, st: Plan)
    requires i < |items| && (items[i].gone.Some? || items[i].made.Some?) && !st.failed
    ensures var it, r := items[i], Visit(items, i, env, st);
      !r.failed ==> r.rv == if Compared(it, env) then CodeOfCheck(CheckOf(it, env)) else st.rv
  {
  }

  /** A plan that did not fail returns the code of the last checksum comparison alone: an
      earlier file that could not be read is forgotten, and a later one that could be
      read hides it. */
  lemma PlanCode(items: seq<Item>, n: nat, env: Env)
    requires Owned(items) && n <= |items| && !PlanUpTo(items, n, env).failed
    ensures (exists i :: 0 <= i < n && Compared(items[i], env)) || PlanUpTo(items, n, env).rv == 0
    ensures forall i: nat :: LastCompared(items, n, env, i) ==>
      PlanUpTo(items, n, env).rv == CodeOfCheck(CheckOf(items[i], env))
  {
    for m := 0 to n
      invariant (exists i :: 0 <= i < m && Compared(items[i], env)) || PlanUpTo(items, m, env).rv == 0
      invariant forall i: nat :: LastCompared(items, m, env, i) ==>
        PlanUpTo(items, m, env).rv == CodeOfCheck(CheckOf(items[i], env))
    {
      DeletedGrows(items, m, n, env);
      DeletedGrows(items, m + 1, n, env);
      VisitCode(items, m, env, PlanUpTo(items, m, env));
      forall i: nat | LastCompared(items, m + 1, env, i)
        ensures PlanUpTo(items, m + 1, env).rv == CodeOfCheck(CheckOf(items[i], env))
      {
        assert i < m ==> LastCompared(items, m, env, i);
      }
    }
  }
}
