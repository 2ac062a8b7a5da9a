/** What a successful dependency walk has collected: every dependency is met, and
    only a dependency cycle can put a package before what it depends on. */
module TransactionDepsTheorems {
  import opened Graph
  import opened Wrappers
  import opened TransactionDeps

  /** d is a dependency of one of the packages. */
  ghost predicate Needed(offers: set<Pkg>, d: Dep) {
    exists p :: p in offers && d in p.rdeps
  }

  /** The packages that can enter the transaction: one version of each name. What
      a repository or the package database offers for one of their dependencies is among
      them and matches it. */
  ghost predicate EnvOk(env: Env, offers: set<Pkg>) {
    && (forall d :: Needed(offers, d) ==> AnswersOk(env, offers, d))
    && (forall p, q :: p in offers && q in offers && (p.name == q.name || p.pkgver == q.pkgver) ==> p == q)
    && (forall p :: p in offers ==> !env.newer(p, p))
  }

  ghost predicate AnswersOk(env: Env, offers: set<Pkg>, d: Dep) {
    && (env.repo(d).Found? ==> env.repo(d).pkg in offers && Meets(env, env.repo(d).pkg, d))
    && (env.local(d).Unpacked? ==> env.local(d).cur in offers && Meets(env, env.local(d).cur, d))
    && (env.repo(d).RepoError? ==> env.repo(d).rv != 0)
    && (env.local(d).Broken? ==> env.local(d).rv != 0)
    && env.local(d) != HalfRemoved(true)
  }

  ghost predicate Wants(env: Env, p: Pkg, q: Pkg) {
    exists i :: 0 <= i < |p.rdeps| && env.repo(p.rdeps[i]) == Found(q)
  }

  ghost function WantGraph(env: Env, offers: set<Pkg>): Digraph<Pkg> {
    map p | p in offers :: set q | q in offers && Wants(env, p, q)
  }

  /** The dependency needs no package of the transaction. */
  predicate Excused(env: Env, p: Pkg, d: Dep) {
    env.ignored(d) || env.selfProvides(p, d) || LocalOf(env, d).Satisfied?
  }

  predicate Live(e: Entry) {
    e.ttype != TRemove && e.ttype != THold
  }

  /** An entry that is to be removed or held, and that nothing entering the transaction is
      confused with or would be met by. */
  ghost predicate Aside(env: Env, offers: set<Pkg>, e: Entry) {
    && !Live(e)
    && (forall p :: p in offers ==> p.name != e.pkg.name && p.pkgver != e.pkg.pkgver)
    && (forall d :: Needed(offers, d) ==> !Meets(env, e.pkg, d))
  }

  ghost predicate AllIn(env: Env, pkgs: seq<Entry>, offers: set<Pkg>) {
    forall u :: 0 <= u < |pkgs| ==> if Live(pkgs[u]) then pkgs[u].pkg in offers else Aside(env, offers, pkgs[u])
  }

  /** Entry u meets d for f: it comes before position t, or f was collected on its
      behalf. */
  ghost predicate EntryMeets(env: Env, g: Digraph<Pkg>, pkgs: seq<Entry>, t: nat, f: Pkg, d: Dep, u: nat) {
    u < |pkgs| && Meets(env, pkgs[u].pkg, d) && (u < t || Reaches(g, pkgs[u].pkg, f))
  }

  ghost predicate ByEntry(env: Env, g: Digraph<Pkg>, pkgs: seq<Entry>, t: nat, f: Pkg, d: Dep) {
    exists u: nat :: EntryMeets(env, g, pkgs, t, f, d, u)
  }

  ghost predicate ByQueue(env: Env, g: Digraph<Pkg>, queued: seq<Pkg>, f: Pkg, d: Dep) {
    exists q :: q in queued && Meets(env, q, d) && Reaches(g, q, f)
  }

  ghost predicate Covered(env: Env, g: Digraph<Pkg>, pkgs: seq<Entry>, t: nat, queued: seq<Pkg>, f: Pkg, d: Dep) {
    Excused(env, f, d) || ByEntry(env, g, pkgs, t, f, d) || ByQueue(env, g, queued, f, d)
  }

  ghost predicate AllCovered(env: Env, g: Digraph<Pkg>, pkgs: seq<Entry>, t: nat, queued: seq<Pkg>, f: Pkg) {
    forall i :: 0 <= i < |f.rdeps| ==> Covered(env, g, pkgs, t, queued, f, f.rdeps[i])
  }

  /** Entry t is live and the only one of its name so far, and its dependencies are covered
      unless it is merely to be configured. */
  ghost predicate NewEntry(env: Env, offers: set<Pkg>, pkgs: seq<Entry>, t: nat, queued: seq<Pkg>)
    requires t < |pkgs|
  {
    && Live(pkgs[t]) && (forall u :: 0 <= u < t ==> pkgs[u].pkg.name != pkgs[t].pkg.name)
    && (pkgs[t].ttype != TConfigure ==> AllCovered(env, WantGraph(env, offers), pkgs, t, queued, pkgs[t].pkg))
  }

  ghost predicate Grown(env: Env, offers: set<Pkg>, before: seq<Entry>, after: seq<Entry>, queued: seq<Pkg>) {
    && before <= after && AllIn(env, after, offers)
    && forall t :: |before| <= t < |after| ==> NewEntry(env, offers, after, t, queued)
  }

  /** Everything queued was queued on behalf of what leads to p. */
  ghost predicate Stack(env: Env, offers: set<Pkg>, queued: seq<Pkg>, p: Pkg) {
    p in offers && forall q :: q in queued ==> q in offers && Reaches(WantGraph(env, offers), q, p)
  }

  /** The package whose dependencies are walked is itself queued or stored, so a
      dependency on itself is passed over. */
  ghost predicate Present(queued: seq<Pkg>, pkgs: seq<Entry>, p: Pkg) {
    p in queued || exists u :: 0 <= u < |pkgs| && pkgs[u].pkg == p
  }

  // ---------------------------------------------------------------------
  // Growing the transaction keeps what is covered
  // ---------------------------------------------------------------------

  lemma CoveredMore(env: Env, g: Digraph<Pkg>, before: seq<Entry>, after: seq<Entry>, t: nat, queued: seq<Pkg>,
    f: Pkg, d: Dep)
    requires before <= after && Covered(env, g, before, t, queued, f, d)
    ensures Covered(env, g, after, t, queued, f, d)
  {
    if ByEntry(env, g, before, t, f, d) {
      var u: nat :| EntryMeets(env, g, before, t, f, d, u);
      assert EntryMeets(env, g, after, t, f, d, u);
    }
  }

  lemma CoveredLater(env: Env, g: Digraph<Pkg>, before: seq<Entry>, after: seq<Entry>, t: nat, t': nat,
    queued: seq<Pkg>, f: Pkg, d: Dep)
    requires before <= after && t <= t' && Covered(env, g, before, t, queued, f, d)
    ensures Covered(env, g, after, t', queued, f, d)
  {
    CoveredMore(env, g, before, after, t, queued, f, d);
    if ByEntry(env, g, after, t, f, d) {
      var u: nat :| EntryMeets(env, g, after, t, f, d, u);
      assert EntryMeets(env, g, after, t', f, d, u);
    }
  }

  lemma NewEntryMore(env: Env, offers: set<Pkg>, before: seq<Entry>, after: seq<Entry>, t: nat, queued: seq<Pkg>)
    requires before <= after && t < |before| && NewEntry(env, offers, before, t, queued)
    ensures NewEntry(env, offers, after, t, queued)
  {
    assert after[t] == before[t];
    var g, f := WantGraph(env, offers), before[t].pkg;
    if before[t].ttype != TConfigure {
      forall i | 0 <= i < |f.rdeps| ensures Covered(env, g, after, t, queued, f, f.rdeps[i]) {
        CoveredMore(env, g, before, after, t, queued, f, f.rdeps[i]);
      }
    }
  }

  lemma GrownTrans(env: Env, offers: set<Pkg>, a: seq<Entry>, b: seq<Entry>, c: seq<Entry>, queued: seq<Pkg>)
    requires Grown(env, offers, a, b, queued) && Grown(env, offers, b, c, queued)
    ensures Grown(env, offers, a, c, queued)
  {
    forall t | |a| <= t < |c| ensures NewEntry(env, offers, c, t, queued) {
      if t < |b| {
        NewEntryMore(env, offers, b, c, t, queued);
      }
    }
  }

  /** Once q is stored, whatever relied on q being queued can rely on its entry. */
  lemma PopCovers(env: Env, g: Digraph<Pkg>, pkgs: seq<Entry>, t: nat, queued: seq<Pkg>, q: Pkg, u: nat, f: Pkg, d: Dep)
    requires Covered(env, g, pkgs, t, queued + [q], f, d) && u < |pkgs| && pkgs[u].pkg == q
    ensures Covered(env, g, pkgs, t, queued, f, d)
  {
    if ByQueue(env, g, queued + [q], f, d) {
      var x :| x in queued + [q] && Meets(env, x, d) && Reaches(g, x, f);
      if x == q {
        assert EntryMeets(env, g, pkgs, t, f, d, u);
      } else {
        assert x in queued;
      }
    }
  }

  lemma PopEntry(env: Env, offers: set<Pkg>, pkgs: seq<Entry>, t: nat, queued: seq<Pkg>, q: Pkg, u: nat)
    requires t < |pkgs| && NewEntry(env, offers, pkgs, t, queued + [q]) && u < |pkgs| && pkgs[u].pkg == q
    ensures NewEntry(env, offers, pkgs, t, queued)
  {
    var g, f := WantGraph(env, offers), pkgs[t].pkg;
    if pkgs[t].ttype != TConfigure {
      forall i | 0 <= i < |f.rdeps| ensures Covered(env, g, pkgs, t, queued, f, f.rdeps[i]) {
        PopCovers(env, g, pkgs, t, queued, q, u, f, f.rdeps[i]);
      }
    }
  }

  /** With one version per name, storing either appends or finds the package. */
  lemma StoreFinds(env: Env, offers: set<Pkg>, pkgs: seq<Entry>, e: Entry) returns (u: nat)
    requires EnvOk(env, offers) && AllIn(env, pkgs, offers) && e.pkg in offers && Live(e)
    ensures var r := Store(env, pkgs, e);
      && u < |r| && r[u].pkg == e.pkg && AllIn(env, r, offers)
      && (r == pkgs || (r == pkgs + [e] && forall v :: 0 <= v < |pkgs| ==> pkgs[v].pkg.name != e.pkg.name))
  {
    match FindName(pkgs, e.pkg.name)
    case None => u := |pkgs|;
    case Some(i) => u := i;
  }

  /** Storing a package after its own dependencies have been collected. */
  lemma {:induction false} StoreGrown(env: Env, offers: set<Pkg>, before: seq<Entry>, pkgs: seq<Entry>,
    queued: seq<Pkg>, e: Entry)
    requires EnvOk(env, offers) && e.pkg in offers && Live(e)
    requires Grown(env, offers, before, pkgs, queued + [e.pkg])
    requires e.ttype != TConfigure ==> AllCovered(env, WantGraph(env, offers), pkgs, |pkgs|, queued + [e.pkg], e.pkg)
    ensures Grown(env, offers, before, Store(env, pkgs, e), queued)
  {
    var u := StoreFinds(env, offers, pkgs, e);
    var r := Store(env, pkgs, e);
    forall t | |before| <= t < |r| ensures NewEntry(env, offers, r, t, queued) {
      StoreNew(env, offers, pkgs, r, queued, e, t, u);
    }
  }

  lemma {:induction false} StoreNew(env: Env, offers: set<Pkg>, pkgs: seq<Entry>, r: seq<Entry>, queued: seq<Pkg>,
    e: Entry, t: nat, u: nat)
    requires Live(e) && t < |r| && u < |r| && r[u].pkg == e.pkg
    requires r == pkgs || (r == pkgs + [e] && forall v :: 0 <= v < |pkgs| ==> pkgs[v].pkg.name != e.pkg.name)
    requires t < |pkgs| ==> NewEntry(env, offers, pkgs, t, queued + [e.pkg])
    requires e.ttype != TConfigure ==> AllCovered(env, WantGraph(env, offers), pkgs, |pkgs|, queued + [e.pkg], e.pkg)
    ensures NewEntry(env, offers, r, t, queued)
  {
    if t < |pkgs| {
      NewEntryMore(env, offers, pkgs, r, t, queued + [e.pkg]);
    } else {
      StoredEntry(env, offers, pkgs, queued + [e.pkg], e);
    }
    PopEntry(env, offers, r, t, queued, e.pkg, u);
  }

  lemma StoredEntry(env: Env, offers: set<Pkg>, pkgs: seq<Entry>, queued: seq<Pkg>, e: Entry)
    requires Live(e) && forall v :: 0 <= v < |pkgs| ==> pkgs[v].pkg.name != e.pkg.name
    requires e.ttype != TConfigure ==> AllCovered(env, WantGraph(env, offers), pkgs, |pkgs|, queued, e.pkg)
    ensures NewEntry(env, offers, pkgs + [e], |pkgs|, queued)
  {
    var g, r := WantGraph(env, offers), pkgs + [e];
    if e.ttype != TConfigure {
      forall i | 0 <= i < |e.pkg.rdeps| ensures Covered(env, g, r, |pkgs|, queued, e.pkg, e.pkg.rdeps[i]) {
        CoveredMore(env, g, pkgs, r, |pkgs|, queued, e.pkg, e.pkg.rdeps[i]);
      }
    }
  }

  // ---------------------------------------------------------------------
  // The walk
  // ---------------------------------------------------------------------

  /** A missing dependency is never forgotten. */
  lemma {:induction false} MissingStays(env: Env, t: Trans, queued: seq<Pkg>, p: Pkg, i: nat, depth: nat, own: bool)
    requires i <= |p.rdeps| && depth < MAX_DEPTH && t.missing != []
    ensures Walk(env, t, queued, p, i, depth, own).0.missing != []
    decreases MAX_DEPTH - depth, |p.rdeps| - i
  {
    if i < |p.rdeps| {
      match Decide(env, queued, t.pkgs, p, p.rdeps[i], own)
      case Fail(rv) =>
      case Stop =>
      case Skip => MissingStays(env, t, queued, p, i + 1, depth, own);
      case Miss =>
        MissingStays(env, t.(missing := AddMissing(env, t.missing, p.rdeps[i])), queued, p, i + 1, depth, own);
      case Add(e) => MissingStays(env, t.(pkgs := Store(env, t.pkgs, e)), queued, p, i + 1, depth, own);
      case Take(q, ttype, auto) =>
        var r := WalkInto(env, t, queued, q, depth);
        MissingStaysInto(env, t, queued, q, depth);
        if r.1 == 0 && ttype != TUnknown {
          MissingStays(env, r.0.(pkgs := Store(env, r.0.pkgs, Entry(q, ttype, auto))), queued, p, i + 1, depth, false);
        }
    }
  }

  lemma {:induction false} MissingStaysInto(env: Env, t: Trans, queued: seq<Pkg>, q: Pkg, depth: nat)
    requires depth < MAX_DEPTH && t.missing != []
    ensures WalkInto(env, t, queued, q, depth).0.missing != []
    decreases MAX_DEPTH - depth, 0
  {
    if q.rdeps != [] && depth + 1 < MAX_DEPTH {
      MissingStays(env, t, queued + [q], q, 0, depth + 1, true);
    }
  }

  /** A dependency the walk passes over is covered already. */
  lemma SkipCovers(env: Env, offers: set<Pkg>, pkgs: seq<Entry>, queued: seq<Pkg>, p: Pkg, i: nat, own: bool)
    requires EnvOk(env, offers) && Stack(env, offers, queued, p) && i < |p.rdeps|
    requires AllIn(env, pkgs, offers) && Present(queued, pkgs, p)
    requires Decide(env, queued, pkgs, p, p.rdeps[i], own).Skip?
    ensures Covered(env, WantGraph(env, offers), pkgs, |pkgs|, queued, p, p.rdeps[i])
  {
    var g, d := WantGraph(env, offers), p.rdeps[i];
    SelfIsSettled(env, offers, pkgs, queued, p, i);
    if !Excused(env, p, d) {
      if InQueue(env, queued, d) {
        var k :| 0 <= k < |queued| && Meets(env, queued[k], d);
        assert queued[k] in queued;
        assert ByQueue(env, g, queued, p, d);
      } else {
        assert EntryMeets(env, g, pkgs, |pkgs|, p, d, FindDep(env, pkgs, d).value);
      }
    }
  }

  lemma SelfIsSettled(env: Env, offers: set<Pkg>, pkgs: seq<Entry>, queued: seq<Pkg>, p: Pkg, i: nat)
    requires EnvOk(env, offers) && p in offers && i < |p.rdeps| && AllIn(env, pkgs, offers) && Present(queued, pkgs, p)
    ensures env.repo(p.rdeps[i]).Found? && env.repo(p.rdeps[i]).pkg.name == p.name ==>
      Settled(env, queued, pkgs, p, p.rdeps[i])
  {
    var d := p.rdeps[i];
    assert Needed(offers, d);
    if env.repo(d).Found? && env.repo(d).pkg.name == p.name {
      assert Meets(env, p, d);
      if p in queued {
        var k :| 0 <= k < |queued| && queued[k] == p;
        assert InQueue(env, queued, d);
      } else {
        assert FindDep(env, pkgs, d).Some?;
        assert Live(pkgs[FindDep(env, pkgs, d).value]);
      }
    }
  }

  lemma NeverStops(env: Env, offers: set<Pkg>, pkgs: seq<Entry>, queued: seq<Pkg>, p: Pkg, i: nat, own: bool)
    requires EnvOk(env, offers) && p in offers && i < |p.rdeps| && AllIn(env, pkgs, offers) && Present(queued, pkgs, p)
    ensures var a := Decide(env, queued, pkgs, p, p.rdeps[i], own);
      && !a.Stop? && (a.Fail? ==> a.rv != 0)
      && (a.Add? ==> a.entry.pkg in offers && a.entry.ttype == TConfigure && Meets(env, a.entry.pkg, p.rdeps[i]))
      && (a.Take? ==> env.repo(p.rdeps[i]) == Found(a.offer))
      && (a.Take? ==> a.ttype in {TInstall, TUpdate, TDownload, TUnknown})
  {
    SelfIsSettled(env, offers, pkgs, queued, p, i);
    assert Needed(offers, p.rdeps[i]) && AnswersOk(env, offers, p.rdeps[i]);
  }

  lemma PresentMore(queued: seq<Pkg>, before: seq<Entry>, after: seq<Entry>, p: Pkg)
    requires Present(queued, before, p) && before <= after
    ensures Present(queued, after, p)
  {
    if p !in queued {
      var u :| 0 <= u < |before| && before[u].pkg == p;
      assert after[u].pkg == p;
    }
  }

  lemma StackPush(env: Env, offers: set<Pkg>, queued: seq<Pkg>, p: Pkg, i: nat, q: Pkg)
    requires EnvOk(env, offers) && Stack(env, offers, queued, p) && i < |p.rdeps| && env.repo(p.rdeps[i]) == Found(q)
    ensures Stack(env, offers, queued + [q], q)
  {
    var g := WantGraph(env, offers);
    assert Needed(offers, p.rdeps[i]) && AnswersOk(env, offers, p.rdeps[i]);
    assert Wants(env, p, q) && q in g[p];
    ReachesSelf(g, q);
    forall x | x in queued + [q] ensures x in offers && Reaches(g, x, q) {
      if x in queued {
        ReachesEdge(g, p, q, q);
        ReachesTrans(g, x, p, q);
      }
    }
  }

  lemma MeetsCovers(env: Env, offers: set<Pkg>, pkgs: seq<Entry>, e: Entry, queued: seq<Pkg>, p: Pkg, d: Dep)
    requires EnvOk(env, offers) && AllIn(env, pkgs, offers) && e.pkg in offers && Live(e) && Meets(env, e.pkg, d)
    ensures var r := Store(env, pkgs, e); Covered(env, WantGraph(env, offers), r, |r|, queued, p, d)
  {
    var u := StoreFinds(env, offers, pkgs, e);
    var r := Store(env, pkgs, e);
    assert EntryMeets(env, WantGraph(env, offers), r, |r|, p, d, u);
  }

  lemma GrownSelf(env: Env, offers: set<Pkg>, pkgs: seq<Entry>, queued: seq<Pkg>)
    requires AllIn(env, pkgs, offers)
    ensures Grown(env, offers, pkgs, pkgs, queued)
  {
  }

  ghost predicate CoveredFrom(env: Env, offers: set<Pkg>, pkgs: seq<Entry>, queued: seq<Pkg>, p: Pkg, i: nat) {
    forall j :: i <= j < |p.rdeps| ==> Covered(env, WantGraph(env, offers), pkgs, |pkgs|, queued, p, p.rdeps[j])
  }

  lemma CoveredFromMore(env: Env, offers: set<Pkg>, mid: seq<Entry>, pkgs: seq<Entry>, queued: seq<Pkg>, p: Pkg, i: nat)
    requires mid <= pkgs && i < |p.rdeps| && CoveredFrom(env, offers, pkgs, queued, p, i + 1)
    requires Covered(env, WantGraph(env, offers), mid, |mid|, queued, p, p.rdeps[i])
    ensures CoveredFrom(env, offers, pkgs, queued, p, i)
  {
    CoveredLater(env, WantGraph(env, offers), mid, pkgs, |mid|, |pkgs|, queued, p, p.rdeps[i]);
  }

  /** A walk that succeeds and finds nothing missing covers every dependency of p
      it has passed, and whatever it stored: no name twice, and every dependency of
      a stored package met before it or on whose behalf it was stored. */
  lemma {:induction false} WalkCovers(env: Env, offers: set<Pkg>, t: Trans, queued: seq<Pkg>, p: Pkg, i: nat,
    depth: nat, own: bool)
    requires EnvOk(env, offers) && Stack(env, offers, queued, p)
    requires AllIn(env, t.pkgs, offers) && Present(queued, t.pkgs, p)
    requires i <= |p.rdeps| && depth < MAX_DEPTH
    requires var r := Walk(env, t, queued, p, i, depth, own); r.1 == 0 && r.0.missing == []
    ensures var r := Walk(env, t, queued, p, i, depth, own).0;
      Grown(env, offers, t.pkgs, r.pkgs, queued) && CoveredFrom(env, offers, r.pkgs, queued, p, i)
    decreases MAX_DEPTH - depth, |p.rdeps| - i, 1
  {
    if i == |p.rdeps| {
      GrownSelf(env, offers, t.pkgs, queued);
    } else {
      NeverStops(env, offers, t.pkgs, queued, p, i, own);
      match Decide(env, queued, t.pkgs, p, p.rdeps[i], own)
      case Skip =>
        SkipCovers(env, offers, t.pkgs, queued, p, i, own);
        WalkCovers(env, offers, t, queued, p, i + 1, depth, own);
        CoveredFromMore(env, offers, t.pkgs, Walk(env, t, queued, p, i, depth, own).0.pkgs, queued, p, i);
      case Miss =>
        MissingStays(env, t.(missing := AddMissing(env, t.missing, p.rdeps[i])), queued, p, i + 1, depth, own);
      case Add(e) =>
        WalkAdds(env, offers, t, queued, p, i, depth, own, e);
      case Take(q, ttype, auto) =>
        WalkTakes(env, offers, t, queued, p, i, depth, own, Entry(q, ttype, auto));
    }
  }

  lemma {:induction false} WalkAdds(env: Env, offers: set<Pkg>, t: Trans, queued: seq<Pkg>, p: Pkg, i: nat,
    depth: nat, own: bool, e: Entry)
    requires EnvOk(env, offers) && Stack(env, offers, queued, p)
    requires AllIn(env, t.pkgs, offers) && Present(queued, t.pkgs, p)
    requires i < |p.rdeps| && depth < MAX_DEPTH && Decide(env, queued, t.pkgs, p, p.rdeps[i], own) == Add(e)
    requires var r := Walk(env, t, queued, p, i, depth, own); r.1 == 0 && r.0.missing == []
    ensures var r := Walk(env, t, queued, p, i, depth, own).0;
      Grown(env, offers, t.pkgs, r.pkgs, queued) && CoveredFrom(env, offers, r.pkgs, queued, p, i)
    decreases MAX_DEPTH - depth, |p.rdeps| - i, 0
  {
    NeverStops(env, offers, t.pkgs, queued, p, i, own);
    var mid := Store(env, t.pkgs, e);
    var after := Walk(env, t, queued, p, i, depth, own).0.pkgs;
    GrownSelf(env, offers, t.pkgs, queued + [e.pkg]);
    StoreGrown(env, offers, t.pkgs, t.pkgs, queued, e);
    MeetsCovers(env, offers, t.pkgs, e, queued, p, p.rdeps[i]);
    PresentMore(queued, t.pkgs, mid, p);
    WalkCovers(env, offers, t.(pkgs := mid), queued, p, i + 1, depth, own);
    GrownTrans(env, offers, t.pkgs, mid, after, queued);
    CoveredFromMore(env, offers, mid, after, queued, p, i);
  }

  lemma {:induction false} WalkTakes(env: Env, offers: set<Pkg>, t: Trans, queued: seq<Pkg>, p: Pkg, i: nat,
    depth: nat, own: bool, e: Entry)
    requires EnvOk(env, offers) && Stack(env, offers, queued, p)
    requires AllIn(env, t.pkgs, offers) && Present(queued, t.pkgs, p)
    requires i < |p.rdeps| && depth < MAX_DEPTH
    requires Decide(env, queued, t.pkgs, p, p.rdeps[i], own) == Take(e.pkg, e.ttype, e.auto)
    requires var r := Walk(env, t, queued, p, i, depth, own); r.1 == 0 && r.0.missing == []
    ensures var r := Walk(env, t, queued, p, i, depth, own).0;
      Grown(env, offers, t.pkgs, r.pkgs, queued) && CoveredFrom(env, offers, r.pkgs, queued, p, i)
    decreases MAX_DEPTH - depth, |p.rdeps| - i, 0
  {
    NeverStops(env, offers, t.pkgs, queued, p, i, own);
    assert Needed(offers, p.rdeps[i]) && AnswersOk(env, offers, p.rdeps[i]);
    var into := WalkInto(env, t, queued, e.pkg, depth).0;
    var next := into.(pkgs := Store(env, into.pkgs, e));
    var after := Walk(env, t, queued, p, i, depth, own).0.pkgs;
    if into.missing != [] {
      MissingStays(env, next, queued, p, i + 1, depth, false);
    }
    StackPush(env, offers, queued, p, i, e.pkg);
    WalkEnters(env, offers, t, queued, e.pkg, depth);
    StoreGrown(env, offers, t.pkgs, into.pkgs, queued, e);
    MeetsCovers(env, offers, into.pkgs, e, queued, p, p.rdeps[i]);
    PresentMore(queued, t.pkgs, next.pkgs, p);
    WalkCovers(env, offers, next, queued, p, i + 1, depth, false);
    GrownTrans(env, offers, t.pkgs, next.pkgs, after, queued);
    CoveredFromMore(env, offers, next.pkgs, after, queued, p, i);
  }

  lemma {:induction false} WalkEnters(env: Env, offers: set<Pkg>, t: Trans, queued: seq<Pkg>, q: Pkg, depth: nat)
    requires EnvOk(env, offers) && Stack(env, offers, queued + [q], q)
    requires AllIn(env, t.pkgs, offers) && depth < MAX_DEPTH
    requires WalkInto(env, t, queued, q, depth).1 == 0 && WalkInto(env, t, queued, q, depth).0.missing == []
    ensures var r := WalkInto(env, t, queued, q, depth).0.pkgs;
      Grown(env, offers, t.pkgs, r, queued + [q]) && AllCovered(env, WantGraph(env, offers), r, |r|, queued + [q], q)
    decreases MAX_DEPTH - depth, 0, 0
  {
    if q.rdeps == [] {
      GrownSelf(env, offers, t.pkgs, queued + [q]);
    } else {
      WalkCovers(env, offers, t, queued + [q], q, 0, depth + 1, true);
    }
  }

  // ---------------------------------------------------------------------
  // The prepared transaction
  // ---------------------------------------------------------------------

  ghost predicate OneName(pkgs: seq<Entry>) {
    forall u, v :: 0 <= u < v < |pkgs| ==> pkgs[u].pkg.name != pkgs[v].pkg.name
  }

  /** Those of the first i explicit entries that are not removed or held have been
      appended again, after their dependencies; nothing else of an explicit name has. */
  ghost predicate Appended(env: Env, offers: set<Pkg>, explicit: seq<Entry>, pkgs: seq<Entry>, i: nat) {
    && explicit <= pkgs && i <= |explicit| && AllIn(env, pkgs, offers) && OneName(pkgs[|explicit|..])
    && (forall t :: |explicit| <= t < |pkgs| ==> Live(pkgs[t]))
    && (forall t :: |explicit| <= t < |pkgs| && pkgs[t].ttype != TConfigure ==>
      AllCovered(env, WantGraph(env, offers), pkgs, t, [], pkgs[t].pkg))
    && (forall t, k :: |explicit| <= t < |pkgs| && i <= k < |explicit| ==> pkgs[t].pkg.name != explicit[k].pkg.name)
    && (forall k :: 0 <= k < i && Live(explicit[k]) ==> explicit[k] in pkgs[|explicit|..])
  }

  lemma AppendedStep(env: Env, offers: set<Pkg>, explicit: seq<Entry>, pkgs: seq<Entry>, mid: seq<Entry>, i: nat)
    requires EnvOk(env, offers) && OneName(explicit) && Appended(env, offers, explicit, pkgs, i) && i < |explicit|
    requires Live(explicit[i])
    requires Grown(env, offers, pkgs, mid, []) && CoveredFrom(env, offers, mid, [], explicit[i].pkg, 0)
    ensures Appended(env, offers, explicit, mid + [explicit[i]], i + 1)
  {
    var n, e := |explicit|, explicit[i];
    var r := mid + [e];
    var g := WantGraph(env, offers);
    assert mid[i] == e;
    forall t | n <= t < |r| ensures Live(r[t]) {
      assert t < |pkgs| ==> r[t] == pkgs[t];
      assert |pkgs| <= t < |mid| ==> NewEntry(env, offers, mid, t, []);
    }
    forall t | n <= t < |r| && r[t].ttype != TConfigure ensures AllCovered(env, g, r, t, [], r[t].pkg) {
      forall j | 0 <= j < |r[t].pkg.rdeps| ensures Covered(env, g, r, t, [], r[t].pkg, r[t].pkg.rdeps[j]) {
        if t < |pkgs| {
          assert r[t] == pkgs[t];
          CoveredMore(env, g, pkgs, r, t, [], r[t].pkg, r[t].pkg.rdeps[j]);
        } else {
          assert t < |mid| ==> NewEntry(env, offers, mid, t, []);
          CoveredMore(env, g, mid, r, t, [], r[t].pkg, r[t].pkg.rdeps[j]);
        }
      }
    }
    AppendedNames(env, offers, explicit, pkgs, mid, i);
  }

  lemma AppendedNames(env: Env, offers: set<Pkg>, explicit: seq<Entry>, pkgs: seq<Entry>, mid: seq<Entry>, i: nat)
    requires OneName(explicit) && Appended(env, offers, explicit, pkgs, i) && i < |explicit|
    requires Grown(env, offers, pkgs, mid, [])
    ensures var r := mid + [explicit[i]]; var n := |explicit|;
      && OneName(r[n..])
      && (forall t, k :: n <= t < |r| && i + 1 <= k < n ==> r[t].pkg.name != explicit[k].pkg.name)
      && (forall k :: 0 <= k < i + 1 && Live(explicit[k]) ==> explicit[k] in r[n..])
  {
    var n, e := |explicit|, explicit[i];
    var r := mid + [e];
    forall t, k | n <= t < |mid| && i <= k < n ensures mid[t].pkg.name != explicit[k].pkg.name {
      if t < |pkgs| {
        assert mid[t] == pkgs[t];
      } else {
        assert NewEntry(env, offers, mid, t, []);
        assert mid[k] == explicit[k];
      }
    }
    forall u, v | n <= u < v < |r| ensures r[u].pkg.name != r[v].pkg.name {
      if v < |pkgs| {
        assert pkgs[n..][u - n] == r[u] && pkgs[n..][v - n] == r[v];
      } else if v < |mid| {
        assert NewEntry(env, offers, mid, v, []);
      }
    }
    forall k | 0 <= k < i + 1 && Live(explicit[k]) ensures explicit[k] in r[n..] {
      if k < i {
        var t :| 0 <= t < |pkgs[n..]| && pkgs[n..][t] == explicit[k];
        assert r[n..][t] == explicit[k];
      } else {
        assert r[n..][|mid| - n] == e;
      }
    }
  }

  /** One explicit entry: its dependencies were collected, nothing is missing, and it
      was appended after them. */
  lemma EdgeStep(env: Env, offers: set<Pkg>, explicit: seq<Entry>, t: Trans, edges: seq<string>, i: nat)
    requires EnvOk(env, offers) && OneName(explicit) && Appended(env, offers, explicit, t.pkgs, i) && i < |explicit|
    requires Live(explicit[i])
    requires var r := CollectEdges(env, t, edges, i, |explicit|); r.2 == 0 && r.0.missing == []
    ensures var e := explicit[i]; var r := Walk(env, t, [], e.pkg, 0, 0, true).0;
      && Appended(env, offers, explicit, r.pkgs + [e], i + 1)
      && CollectEdges(env, t, edges, i, |explicit|)
        == CollectEdges(env, r.(pkgs := r.pkgs + [e]), edges + [e.pkg.pkgver], i + 1, |explicit|)
  {
    var e := t.pkgs[i];
    assert e == explicit[i] && e.pkg in offers;
    var r := Walk(env, t, [], e.pkg, 0, 0, true);
    if r.0.missing != [] {
      MissingCollected(env, r.0.(pkgs := r.0.pkgs + [e]), edges + [e.pkg.pkgver], i + 1, |explicit|);
    }
    assert Present([], t.pkgs, e.pkg);
    WalkCovers(env, offers, t, [], e.pkg, 0, 0, true);
    AppendedStep(env, offers, explicit, t.pkgs, r.0.pkgs, i);
  }

  /** The entries that are not removed or held, and the others. */
  function LiveOf(es: seq<Entry>): seq<Entry> {
    if es == [] then [] else (if Live(es[0]) then [es[0]] else []) + LiveOf(es[1..])
  }

  function DeadOf(es: seq<Entry>): (r: seq<Entry>)
    ensures forall e :: e in r <==> e in es && !Live(e)
  {
    if es == [] then [] else (if Live(es[0]) then [] else [es[0]]) + DeadOf(es[1..])
  }

  lemma LiveCons(e: Entry, rest: seq<Entry>)
    ensures LiveOf([e] + rest) == (if Live(e) then [e] + LiveOf(rest) else LiveOf(rest))
    ensures DeadOf([e] + rest) == (if Live(e) then DeadOf(rest) else [e] + DeadOf(rest))
  {
    assert ([e] + rest)[1..] == rest;
  }

  lemma Regroup(a: seq<Entry>, e: Entry, b: seq<Entry>, c: seq<Entry>)
    ensures a + ([e] + b) + c == a + [e] + b + c
  {
  }

  /** The edges of the explicit entries from the i-th on. */
  function EdgesFrom(explicit: seq<Entry>, i: nat): seq<string>
    requires i <= |explicit|
  {
    Pkgvers(LiveOf(explicit[i..]))
  }

  lemma EdgesNext(explicit: seq<Entry>, i: nat)
    requires i < |explicit|
    ensures EdgesFrom(explicit, i) ==
      if Live(explicit[i]) then [explicit[i].pkg.pkgver] + EdgesFrom(explicit, i + 1) else EdgesFrom(explicit, i + 1)
  {
    var e, rest := explicit[i], explicit[i + 1..];
    assert explicit[i..] == [e] + rest;
    LiveCons(e, rest);
    PkgversCons(e, LiveOf(rest));
  }

  lemma EdgeFirst(edges: seq<string>, v: string, rest: seq<string>)
    ensures edges + [v] + rest == edges + ([v] + rest)
  {
  }

  /** An explicit entry that is removed or held is passed over. */
  lemma EdgeSkip(env: Env, offers: set<Pkg>, explicit: seq<Entry>, t: Trans, edges: seq<string>, i: nat)
    requires i < |explicit| && !Live(explicit[i]) && Appended(env, offers, explicit, t.pkgs, i)
    ensures Appended(env, offers, explicit, t.pkgs, i + 1)
    ensures CollectEdges(env, t, edges, i, |explicit|) == CollectEdges(env, t, edges, i + 1, |explicit|)
  {
    assert t.pkgs[i] == explicit[i];
  }

  lemma {:induction false} EdgesCollected(env: Env, offers: set<Pkg>, explicit: seq<Entry>, t: Trans,
    edges: seq<string>, i: nat)
    requires EnvOk(env, offers) && OneName(explicit) && Appended(env, offers, explicit, t.pkgs, i)
    requires var r := CollectEdges(env, t, edges, i, |explicit|); r.2 == 0 && r.0.missing == []
    ensures var r := CollectEdges(env, t, edges, i, |explicit|);
      Appended(env, offers, explicit, r.0.pkgs, |explicit|) && r.1 == edges + EdgesFrom(explicit, i)
    decreases |explicit| - i
  {
    if i < |explicit| {
      EdgesNext(explicit, i);
      var e := explicit[i];
      EdgeFirst(edges, e.pkg.pkgver, EdgesFrom(explicit, i + 1));
      if Live(e) {
        EdgeStep(env, offers, explicit, t, edges, i);
        var r := Walk(env, t, [], e.pkg, 0, 0, true).0;
        EdgesCollected(env, offers, explicit, r.(pkgs := r.pkgs + [e]), edges + [e.pkg.pkgver], i + 1);
      } else {
        EdgeSkip(env, offers, explicit, t, edges, i);
        EdgesCollected(env, offers, explicit, t, edges, i + 1);
      }
    }
  }

  lemma {:induction false} MissingCollected(env: Env, t: Trans, edges: seq<string>, i: nat, cnt: nat)
    requires i <= cnt <= |t.pkgs| && t.missing != []
    ensures CollectEdges(env, t, edges, i, cnt).0.missing != []
    decreases cnt - i
  {
    if i < cnt {
      var e := t.pkgs[i];
      if e.ttype == TRemove || e.ttype == THold {
        MissingCollected(env, t, edges, i + 1, cnt);
      } else {
        MissingStays(env, t, [], e.pkg, 0, 0, true);
        var r := Walk(env, t, [], e.pkg, 0, 0, true);
        if r.1 == 0 {
          MissingCollected(env, r.0.(pkgs := r.0.pkgs + [e]), edges + [e.pkg.pkgver], i + 1, cnt);
        }
      }
    }
  }

  function Pkgvers(es: seq<Entry>): seq<string> {
    seq(|es|, i requires 0 <= i < |es| => es[i].pkg.pkgver)
  }

  lemma {:induction false} RemoveSkips(done: seq<Entry>, rest: seq<Entry>, pkgver: string)
    requires forall e :: e in done ==> e.pkg.pkgver != pkgver
    ensures RemovePkgver(done + rest, pkgver) == done + RemovePkgver(rest, pkgver)
  {
    if done == [] {
      assert done + rest == rest;
    } else {
      assert (done + rest)[1..] == done[1..] + rest;
      RemoveSkips(done[1..], rest, pkgver);
    }
  }

  /** No entry to be removed or held has the pkgver of another that stays. */
  ghost predicate PkgversApart(dead: seq<Entry>, live: seq<Entry>) {
    forall e, f :: e in dead && f in live && !Live(e) && Live(f) ==> e.pkg.pkgver != f.pkg.pkgver
  }

  /** The first edge removes the first entry that stays. */
  lemma HeadGoes(done: seq<Entry>, e: Entry, rest: seq<Entry>, tail: seq<Entry>, edges: seq<string>)
    requires forall x :: x in done ==> x.pkg.pkgver != e.pkg.pkgver
    ensures RemoveHeads(done + ([e] + rest) + tail, [e.pkg.pkgver] + edges) == RemoveHeads(done + rest + tail, edges)
  {
    var all := done + ([e] + rest) + tail;
    RemoveSkips(done, [e] + rest + tail, e.pkg.pkgver);
    assert all == done + ([e] + rest + tail);
    assert ([e] + rest + tail)[1..] == rest + tail;
    assert done + (rest + tail) == done + rest + tail;
    assert ([e.pkg.pkgver] + edges)[1..] == edges;
  }

  lemma PkgversCons(e: Entry, rest: seq<Entry>)
    ensures Pkgvers([e] + rest) == [e.pkg.pkgver] + Pkgvers(rest)
  {
  }

  ghost predicate HeadsGone(done: seq<Entry>, explicit: seq<Entry>, tail: seq<Entry>) {
    RemoveHeads(done + explicit + tail, Pkgvers(LiveOf(explicit))) == done + DeadOf(explicit) + tail
  }

  lemma LiveHead(done: seq<Entry>, e: Entry, rest: seq<Entry>, tail: seq<Entry>)
    requires Live(e) && (forall x :: x in done ==> x.pkg.pkgver != e.pkg.pkgver) && HeadsGone(done, rest, tail)
    ensures HeadsGone(done, [e] + rest, tail)
  {
    LiveCons(e, rest);
    PkgversCons(e, LiveOf(rest));
    HeadGoes(done, e, rest, tail, Pkgvers(LiveOf(rest)));
  }

  lemma DeadHead(done: seq<Entry>, e: Entry, rest: seq<Entry>, tail: seq<Entry>)
    requires !Live(e) && HeadsGone(done + [e], rest, tail)
    ensures HeadsGone(done, [e] + rest, tail)
  {
    LiveCons(e, rest);
    Regroup(done, e, rest, tail);
    Regroup(done, e, DeadOf(rest), tail);
  }

  lemma {:induction false} HeadsRemovedAfter(done: seq<Entry>, explicit: seq<Entry>, tail: seq<Entry>)
    requires (forall e :: e in done ==> !Live(e)) && PkgversApart(done + explicit, explicit)
    ensures HeadsGone(done, explicit, tail)
    decreases |explicit|
  {
    if explicit != [] {
      var e, rest := explicit[0], explicit[1..];
      assert explicit == [e] + rest;
      if Live(e) {
        HeadsRemovedAfter(done, rest, tail);
        LiveHead(done, e, rest, tail);
      } else {
        assert done + explicit == (done + [e]) + rest;
        HeadsRemovedAfter(done + [e], rest, tail);
        DeadHead(done, e, rest, tail);
      }
    }
  }

  /** The edges remove exactly the heads that were appended again. */
  lemma HeadsRemoved(explicit: seq<Entry>, tail: seq<Entry>)
    requires PkgversApart(explicit, explicit)
    ensures RemoveHeads(explicit + tail, Pkgvers(LiveOf(explicit))) == DeadOf(explicit) + tail
  {
    assert [] + explicit == explicit && [] + DeadOf(explicit) == DeadOf(explicit);
    HeadsRemovedAfter([], explicit, tail);
  }

  /** What meets d for entry t of the prepared transaction: something before it,
      something explicitly requested, or something it was collected for. */
  ghost predicate Met(env: Env, g: Digraph<Pkg>, explicit: seq<Entry>, final: seq<Entry>, t: nat, d: Dep)
    requires t < |final|
  {
    exists u :: 0 <= u < |final| && Live(final[u]) && Meets(env, final[u].pkg, d)
      && (u < t || final[u] in explicit || Reaches(g, final[u].pkg, final[t].pkg))
  }

  /** Each name once, every explicit entry kept, and every dependency of what will be
      unpacked met or excused. */
  ghost predicate IsComplete(env: Env, offers: set<Pkg>, explicit: seq<Entry>, final: seq<Entry>) {
    && OneName(final)
    && (forall k :: 0 <= k < |explicit| ==> explicit[k] in final)
    && (forall t, i :: 0 <= t < |final| && Unpacked(final[t]) && 0 <= i < |final[t].pkg.rdeps| ==>
      Excused(env, final[t].pkg, final[t].pkg.rdeps[i])
      || Met(env, WantGraph(env, offers), explicit, final, t, final[t].pkg.rdeps[i]))
  }

  /** The entry is not removed, held or only configured. */
  predicate Unpacked(e: Entry) {
    Live(e) && e.ttype != TConfigure
  }

  /** A prepared transaction with nothing missing holds each name once, keeps every
      explicit entry, and meets every dependency of every package it will unpack
      unless the dependency is ignored, self-provided or met by an installed
      package. */
  lemma PreparedComplete(env: Env, offers: set<Pkg>, explicit: seq<Entry>)
    requires EnvOk(env, offers) && OneName(explicit) && AllIn(env, explicit, offers)
    requires Prepare(env, explicit).1 == 0 && Prepare(env, explicit).0.missing == []
    ensures IsComplete(env, offers, explicit, Prepare(env, explicit).0.pkgs)
  {
    var n := |explicit|;
    assert explicit[0..] == explicit && explicit[n..] == [];
    assert [] + EdgesFrom(explicit, 0) == Pkgvers(LiveOf(explicit));
    assert Appended(env, offers, explicit, explicit, 0);
    EdgesCollected(env, offers, explicit, Trans(explicit, []), [], 0);
    var pkgs := CollectEdges(env, Trans(explicit, []), [], 0, n).0.pkgs;
    assert pkgs == explicit + pkgs[n..];
    DeadApart(env, offers, explicit);
    HeadsRemoved(explicit, pkgs[n..]);
    FinalComplete(env, offers, explicit, pkgs);
  }

  lemma DeadApart(env: Env, offers: set<Pkg>, explicit: seq<Entry>)
    requires AllIn(env, explicit, offers)
    ensures PkgversApart(explicit, explicit)
  {
    forall e, f | e in explicit && f in explicit && !Live(e) && Live(f) ensures e.pkg.pkgver != f.pkg.pkgver {
      var i :| 0 <= i < |explicit| && explicit[i] == e;
      var j :| 0 <= j < |explicit| && explicit[j] == f;
      assert Aside(env, offers, explicit[i]) && explicit[j].pkg in offers;
    }
  }

  lemma FinalComplete(env: Env, offers: set<Pkg>, explicit: seq<Entry>, pkgs: seq<Entry>)
    requires OneName(explicit) && Appended(env, offers, explicit, pkgs, |explicit|)
    ensures IsComplete(env, offers, explicit, DeadOf(explicit) + pkgs[|explicit|..])
  {
    FinalNames(env, offers, explicit, pkgs);
    FinalKeeps(explicit, DeadOf(explicit), pkgs[|explicit|..]);
    FinalCovered(env, offers, explicit, pkgs, DeadOf(explicit));
  }

  lemma FinalCovered(env: Env, offers: set<Pkg>, explicit: seq<Entry>, pkgs: seq<Entry>, dead: seq<Entry>)
    requires Appended(env, offers, explicit, pkgs, |explicit|) && forall e :: e in dead ==> !Live(e)
    ensures var final := dead + pkgs[|explicit|..];
      forall t, i :: 0 <= t < |final| && Unpacked(final[t]) && 0 <= i < |final[t].pkg.rdeps| ==>
        Excused(env, final[t].pkg, final[t].pkg.rdeps[i])
        || Met(env, WantGraph(env, offers), explicit, final, t, final[t].pkg.rdeps[i])
  {
    var tail := pkgs[|explicit|..];
    var final := dead + tail;
    DeadFirst(dead, tail);
    forall t, i | 0 <= t < |final| && Unpacked(final[t]) && 0 <= i < |final[t].pkg.rdeps|
      ensures Excused(env, final[t].pkg, final[t].pkg.rdeps[i])
        || Met(env, WantGraph(env, offers), explicit, final, t, final[t].pkg.rdeps[i])
    {
      assert final[t] == tail[t - |dead|];
      FinalMet(env, offers, explicit, pkgs, dead, t - |dead|, i);
    }
  }

  lemma FinalKeeps(explicit: seq<Entry>, dead: seq<Entry>, tail: seq<Entry>)
    requires dead == DeadOf(explicit) && forall k :: 0 <= k < |explicit| && Live(explicit[k]) ==> explicit[k] in tail
    ensures forall k :: 0 <= k < |explicit| ==> explicit[k] in dead + tail
  {
    forall k | 0 <= k < |explicit| ensures explicit[k] in dead + tail {
      assert explicit[k] in explicit;
    }
  }

  lemma DeadFirst(dead: seq<Entry>, tail: seq<Entry>)
    requires forall e :: e in dead ==> !Live(e)
    ensures forall t :: 0 <= t < |dead + tail| && Live((dead + tail)[t]) ==> t >= |dead|
  {
  }

  lemma {:induction false} DeadNames(explicit: seq<Entry>)
    requires OneName(explicit)
    ensures OneName(DeadOf(explicit))
  {
    if explicit != [] {
      DeadNames(explicit[1..]);
      var rest := DeadOf(explicit[1..]);
      forall u | 0 <= u < |rest| ensures rest[u].pkg.name != explicit[0].pkg.name {
        assert rest[u] in explicit[1..];
      }
    }
  }

  lemma FinalNames(env: Env, offers: set<Pkg>, explicit: seq<Entry>, pkgs: seq<Entry>)
    requires OneName(explicit) && Appended(env, offers, explicit, pkgs, |explicit|)
    ensures OneName(DeadOf(explicit) + pkgs[|explicit|..])
  {
    var n, dead := |explicit|, DeadOf(explicit);
    DeadNames(explicit);
    forall u, v | 0 <= u < |dead| && n <= v < |pkgs| ensures dead[u].pkg.name != pkgs[v].pkg.name {
      assert dead[u] in dead;
      var k :| 0 <= k < n && explicit[k] == dead[u];
      assert pkgs[k] == explicit[k] && Aside(env, offers, pkgs[k]) && Live(pkgs[v]);
    }
  }

  lemma FinalMet(env: Env, offers: set<Pkg>, explicit: seq<Entry>, pkgs: seq<Entry>, dead: seq<Entry>, t: nat, i: nat)
    requires Appended(env, offers, explicit, pkgs, |explicit|)
    requires var tail := pkgs[|explicit|..]; t < |tail| && tail[t].ttype != TConfigure && i < |tail[t].pkg.rdeps|
    ensures var f := pkgs[|explicit|..][t].pkg; var final := dead + pkgs[|explicit|..];
      Excused(env, f, f.rdeps[i]) || Met(env, WantGraph(env, offers), explicit, final, |dead| + t, f.rdeps[i])
  {
    var n, g, tail := |explicit|, WantGraph(env, offers), pkgs[|explicit|..];
    var f, final := tail[t].pkg, dead + tail;
    var d := f.rdeps[i];
    assert pkgs[n + t] == tail[t] && final[|dead| + t] == tail[t];
    assert Covered(env, g, pkgs, n + t, [], f, d);
    if !Excused(env, f, d) {
      var u: nat :| EntryMeets(env, g, pkgs, n + t, f, d, u);
      assert Needed(offers, d);
      assert Live(pkgs[u]);
      if u < n {
        assert pkgs[u] == explicit[u];
        assert explicit[u] in tail;
        var v :| 0 <= v < |tail| && tail[v] == explicit[u];
        assert final[|dead| + v] == explicit[u];
      } else {
        assert final[|dead| + (u - n)] == pkgs[u];
      }
    }
  }

  // ---------------------------------------------------------------------
  // Storing, for any versions
  // ---------------------------------------------------------------------

  ghost predicate OnePkgver(pkgs: seq<Entry>) {
    forall u, v :: 0 <= u < v < |pkgs| ==> pkgs[u].pkg.pkgver != pkgs[v].pkg.pkgver
  }

  lemma {:induction false} RemoveFirst(pkgs: seq<Entry>, i: nat)
    requires OnePkgver(pkgs) && i < |pkgs|
    ensures RemovePkgver(pkgs, pkgs[i].pkg.pkgver) == pkgs[..i] + pkgs[i + 1..]
  {
    if i > 0 {
      assert pkgs[0].pkg.pkgver != pkgs[i].pkg.pkgver;
      RemoveFirst(pkgs[1..], i - 1);
      assert pkgs[1..][..i - 1] == pkgs[1..i] && pkgs[1..][i..] == pkgs[i + 1..];
    }
  }

  lemma Replaced(pkgs: seq<Entry>, i: nat, e: Entry)
    requires OneName(pkgs) && i < |pkgs| && pkgs[i].pkg.name == e.pkg.name
    ensures var r := pkgs[..i] + pkgs[i + 1..] + [e];
      && OneName(r) && r[|r| - 1] == e
      && forall x: Entry :: x.pkg.name != e.pkg.name ==> (x in r <==> x in pkgs)
  {
    var r := pkgs[..i] + pkgs[i + 1..] + [e];
    assert pkgs == pkgs[..i] + [pkgs[i]] + pkgs[i + 1..];
    assert forall u :: 0 <= u < |r| - 1 ==> r[u] == pkgs[if u < i then u else u + 1];
  }

  /** One entry per name, every other name as it was, and under the name of e no older
      version than e, which is e or was there before. */
  ghost predicate StoredWell(env: Env, pkgs: seq<Entry>, e: Entry, r: seq<Entry>) {
    && OneName(r)
    && (forall x: Entry :: x.pkg.name != e.pkg.name ==> (x in r <==> x in pkgs))
    && (exists u :: (0 <= u < |r| && r[u].pkg.name == e.pkg.name
         && !env.newer(e.pkg, r[u].pkg) && (r[u] == e || r[u] in pkgs)))
  }

  /** Storing keeps one entry per name, leaves every other name alone, and what is
      then stored under the name is never an older version than the one offered. */
  lemma StoreKeepsGreatest(env: Env, pkgs: seq<Entry>, e: Entry)
    requires OneName(pkgs) && OnePkgver(pkgs) && !env.newer(e.pkg, e.pkg)
    ensures StoredWell(env, pkgs, e, Store(env, pkgs, e))
  {
    match FindName(pkgs, e.pkg.name)
    case None =>
      assert Store(env, pkgs, e)[|pkgs|] == e;
    case Some(i) =>
      if env.newer(e.pkg, pkgs[i].pkg) {
        RemoveFirst(pkgs, i);
        Replaced(pkgs, i, e);
      } else {
        assert pkgs[i].pkg.name == e.pkg.name;
      }
  }
}
