/** Collecting dependencies fails only for a reason: an answer that is an error, a
    dependency that cannot be handled, or a chain of dependencies that is too long. */
module TransactionFailure {
  import opened Wrappers
  import opened TransactionDeps
  import opened TransactionDepsTheorems
  import opened TransactionWanted

  /** What makes the passes over the dependency d fail with the code. */
  predicate Refuses(env: Env, d: Dep, rv: int) {
    || (!env.named(d) && rv == ENXIO)
    || env.repo(d) == RepoError(rv)
    || (!env.downloadOnly && env.local(d) == Broken(rv))
    || (!env.downloadOnly && env.local(d) == HalfRemoved(false) && rv == EINVAL)
    || (TwoUpdates(env, d) && rv == ENODEV)
  }

  /** An update of an installed package of the same name is wanted, and the package
      offered matches by name: another update of it may be stored already. */
  predicate TwoUpdates(env: Env, d: Dep) {
    && !env.downloadOnly && env.local(d).Outdated? && env.local(d).sameName
    && env.repo(d).Found? && env.exact(env.repo(d).pkg, d)
  }

  ghost predicate RefusedFor(env: Env, p: Pkg, rv: int) {
    exists f, d :: RefusedAt(env, p, rv, f, d)
  }

  ghost predicate RefusedAt(env: Env, p: Pkg, rv: int, f: Pkg, d: Dep) {
    Brings(env, true, p, f) && d in f.rdeps && Refuses(env, d, rv)
  }

  /** n packages, each offered for a dependency of the one before. */
  ghost predicate ChainFrom(env: Env, p: Pkg, n: nat) {
    exists path :: IsChain(env, false, path) && path[0] == p && |path| == n
  }

  lemma ChainLonger(env: Env, p: Pkg, d: Dep, q: Pkg, n: nat, m: nat)
    requires d in p.rdeps && env.repo(d) == Found(q) && ChainFrom(env, q, n) && m == n + 1
    ensures ChainFrom(env, p, m)
  {
    var path :| IsChain(env, false, path) && path[0] == q && |path| == n;
    assert LeadsTo(env, false, p, q) by {
      var i :| 0 <= i < |p.rdeps| && p.rdeps[i] == d;
      assert AnswerFor(env, false, p.rdeps[i], q);
    }
    assert IsChain(env, false, [p, q]);
    ChainJoined(env, false, [p, q], path);
    assert [p, q] + path[1..] == [p] + path;
  }

  lemma ChainOne(env: Env, p: Pkg)
    ensures ChainFrom(env, p, 1)
  {
    assert IsChain(env, false, [p]);
  }

  /** The walk over the dependencies of p at this depth has a reason to fail. */
  ghost predicate Reason(env: Env, p: Pkg, depth: nat, rv: int)
    requires depth < MAX_DEPTH
  {
    RefusedFor(env, p, rv) || (rv == ELOOP && ChainFrom(env, p, MAX_DEPTH - depth + 1))
  }

  lemma FailsRightly(env: Env, queued: seq<Pkg>, pkgs: seq<Entry>, p: Pkg, d: Dep, own: bool)
    ensures var a := Decide(env, queued, pkgs, p, d, own);
      && (a.Fail? ==> Refuses(env, d, a.rv))
      && (a.Take? && a.ttype == TUnknown ==> Refuses(env, d, EINVAL))
      && (a.Take? ==> env.repo(d) == Found(a.offer))
  {
  }

  lemma ReasonHere(env: Env, p: Pkg, d: Dep, depth: nat, rv: int)
    requires depth < MAX_DEPTH && d in p.rdeps && Refuses(env, d, rv)
    ensures Reason(env, p, depth, rv)
  {
    BringsSelf(env, true, p);
    assert RefusedAt(env, p, rv, p, d);
  }

  lemma ReasonThrough(env: Env, p: Pkg, d: Dep, q: Pkg, rv: int)
    requires d in p.rdeps && env.repo(d) == Found(q) && RefusedFor(env, q, rv)
    ensures RefusedFor(env, p, rv)
  {
    var f, x :| RefusedAt(env, q, rv, f, x);
    BringsNext(env, true, p, d, q);
    BringsTrans(env, true, p, q, f);
    assert RefusedAt(env, p, rv, f, x);
  }

  lemma {:induction false} WalkFails(env: Env, t: Trans, queued: seq<Pkg>, p: Pkg, i: nat, depth: nat, own: bool)
    requires i <= |p.rdeps| && depth < MAX_DEPTH
    ensures var rv := Walk(env, t, queued, p, i, depth, own).1; rv == 0 || Reason(env, p, depth, rv)
    decreases MAX_DEPTH - depth, |p.rdeps| - i
  {
    if i < |p.rdeps| {
      FailsRightly(env, queued, t.pkgs, p, p.rdeps[i], own);
      match Decide(env, queued, t.pkgs, p, p.rdeps[i], own)
      case Fail(rv) => ReasonHere(env, p, p.rdeps[i], depth, rv);
      case Stop =>
      case Skip => WalkFails(env, t, queued, p, i + 1, depth, own);
      case Miss =>
        WalkFails(env, t.(missing := AddMissing(env, t.missing, p.rdeps[i])), queued, p, i + 1, depth, own);
      case Add(e) => WalkFails(env, t.(pkgs := Store(env, t.pkgs, e)), queued, p, i + 1, depth, own);
      case Take(q, ttype, auto) =>
        var r := WalkInto(env, t, queued, q, depth);
        if r.1 != 0 {
          IntoFails(env, t, queued, p, p.rdeps[i], q, depth);
        } else if ttype == TUnknown {
          ReasonHere(env, p, p.rdeps[i], depth, EINVAL);
        } else {
          WalkFails(env, r.0.(pkgs := Store(env, r.0.pkgs, Entry(q, ttype, auto))), queued, p, i + 1, depth, false);
        }
    }
  }

  lemma ReasonLoop(env: Env, p: Pkg, d: Dep, q: Pkg, depth: nat)
    requires depth + 1 == MAX_DEPTH && d in p.rdeps && env.repo(d) == Found(q)
    ensures Reason(env, p, depth, ELOOP)
  {
    ChainOne(env, q);
    ChainLonger(env, p, d, q, 1, 2);
  }

  lemma ReasonUp(env: Env, p: Pkg, d: Dep, q: Pkg, depth: nat, rv: int)
    requires depth + 1 < MAX_DEPTH && d in p.rdeps && env.repo(d) == Found(q) && Reason(env, q, depth + 1, rv)
    ensures Reason(env, p, depth, rv)
  {
    if RefusedFor(env, q, rv) {
      ReasonThrough(env, p, d, q, rv);
    } else {
      ChainLonger(env, p, d, q, MAX_DEPTH - (depth + 1) + 1, MAX_DEPTH - depth + 1);
    }
  }

  lemma {:induction false} IntoFails(env: Env, t: Trans, queued: seq<Pkg>, p: Pkg, d: Dep, q: Pkg, depth: nat)
    requires depth < MAX_DEPTH && d in p.rdeps && env.repo(d) == Found(q) && WalkInto(env, t, queued, q, depth).1 != 0
    ensures Reason(env, p, depth, WalkInto(env, t, queued, q, depth).1)
    decreases MAX_DEPTH - depth, 0
  {
    if depth + 1 >= MAX_DEPTH {
      ReasonLoop(env, p, d, q, depth);
    } else {
      WalkFails(env, t, queued + [q], q, 0, depth + 1, true);
      ReasonUp(env, p, d, q, depth, WalkInto(env, t, queued, q, depth).1);
    }
  }

  // ---------------------------------------------------------------------
  // The whole preparation
  // ---------------------------------------------------------------------

  /** Something p brings along starts a chain of more than 512 packages. */
  ghost predicate TooDeep(env: Env, p: Pkg) {
    exists f :: Brings(env, true, p, f) && ChainFrom(env, f, MAX_DEPTH + 1)
  }

  ghost predicate FailsFor(env: Env, p: Pkg, rv: int) {
    RefusedFor(env, p, rv) || (rv == ELOOP && TooDeep(env, p))
  }

  ghost predicate ExplicitFails(env: Env, explicit: seq<Entry>, rv: int) {
    exists k :: 0 <= k < |explicit| && Live(explicit[k]) && FailsFor(env, explicit[k].pkg, rv)
  }

  lemma RootFails(env: Env, p: Pkg, q: Pkg, rv: int)
    requires Brings(env, true, p, q) && Reason(env, q, 0, rv)
    ensures FailsFor(env, p, rv)
  {
    if RefusedFor(env, q, rv) {
      var f, d :| RefusedAt(env, q, rv, f, d);
      BringsTrans(env, true, p, q, f);
      assert RefusedAt(env, p, rv, f, d);
    }
  }

  lemma {:induction false} EdgesFail(env: Env, explicit: seq<Entry>, t: Trans, edges: seq<string>, i: nat)
    requires i <= |explicit| <= |t.pkgs| && AllJustified(env, true, explicit, t)
    ensures var rv := CollectEdges(env, t, edges, i, |explicit|).2; rv == 0 || ExplicitFails(env, explicit, rv)
    decreases |explicit| - i
  {
    if i < |explicit| {
      var e := t.pkgs[i];
      if e.ttype == TRemove || e.ttype == THold {
        EdgesFail(env, explicit, t, edges, i + 1);
      } else {
        var r := Walk(env, t, [], e.pkg, 0, 0, true);
        if r.1 == 0 {
          RootJustified(env, explicit, t, e);
          EdgesFail(env, explicit, r.0.(pkgs := r.0.pkgs + [e]), edges + [e.pkg.pkgver], i + 1);
        } else {
          var k := BroughtBy(env, explicit, t, e);
          WalkFails(env, t, [], e.pkg, 0, 0, true);
          RootFails(env, explicit[k].pkg, e.pkg, r.1);
        }
      }
    }
  }

  /** Preparing a transaction fails only if a package brought along by an explicit entry
      has a dependency that is refused with that code, or if one of them starts a chain
      of more than 512 packages. */
  lemma PrepareFails(env: Env, explicit: seq<Entry>)
    ensures var rv := Prepare(env, explicit).1; rv == 0 || ExplicitFails(env, explicit, rv)
  {
    EdgesFail(env, explicit, Trans(explicit, []), [], 0);
  }
}
