/** Nothing enters the transaction, or its list of missing dependencies, without a reason:
    a package that the explicit entries bring along depends on it, and the package
    database and the repositories answered accordingly. */
module TransactionWanted {
  import opened Wrappers
  import opened Graph
  import opened TransactionDeps
  import opened TransactionDepsTheorems

  /** q is what the repositories offer for a dependency of p or, if these count too, the
      unpacked package that the database holds for it. */
  ghost predicate LeadsTo(env: Env, unpacked: bool, p: Pkg, q: Pkg) {
    exists i :: 0 <= i < |p.rdeps| && AnswerFor(env, unpacked, p.rdeps[i], q)
  }

  predicate AnswerFor(env: Env, unpacked: bool, d: Dep, q: Pkg) {
    env.repo(d) == Found(q) || (unpacked && env.local(d).Unpacked? && env.local(d).cur == q)
  }

  ghost predicate IsChain(env: Env, unpacked: bool, path: seq<Pkg>) {
    |path| > 0 && forall i, j :: 0 <= i < |path| - 1 && j == i + 1 ==> LeadsTo(env, unpacked, path[i], path[j])
  }

  /** f is p, or is the answer to a dependency of something p brings along. */
  ghost predicate Brings(env: Env, unpacked: bool, p: Pkg, f: Pkg) {
    exists path :: IsChain(env, unpacked, path) && path[0] == p && path[|path| - 1] == f
  }

  lemma BringsSelf(env: Env, unpacked: bool, p: Pkg)
    ensures Brings(env, unpacked, p, p)
  {
    assert IsChain(env, unpacked, [p]);
  }

  lemma ChainJoined(env: Env, unpacked: bool, a: seq<Pkg>, b: seq<Pkg>)
    requires IsChain(env, unpacked, a) && IsChain(env, unpacked, b) && a[|a| - 1] == b[0]
    ensures IsChain(env, unpacked, a + b[1..])
  {
    var all := a + b[1..];
    forall i, j | 0 <= i < |all| - 1 && j == i + 1 ensures LeadsTo(env, unpacked, all[i], all[j]) {
      if j < |a| {
        assert all[i] == a[i] && all[j] == a[j];
      } else {
        assert all[i] == b[j - |a|] && all[j] == b[j - |a| + 1];
      }
    }
  }

  lemma BringsTrans(env: Env, unpacked: bool, p: Pkg, q: Pkg, f: Pkg)
    requires Brings(env, unpacked, p, q) && Brings(env, unpacked, q, f)
    ensures Brings(env, unpacked, p, f)
  {
    var a :| IsChain(env, unpacked, a) && a[0] == p && a[|a| - 1] == q;
    var b :| IsChain(env, unpacked, b) && b[0] == q && b[|b| - 1] == f;
    ChainJoined(env, unpacked, a, b);
    assert (a + b[1..])[|a + b[1..]| - 1] == f;
  }

  lemma BringsNext(env: Env, unpacked: bool, p: Pkg, d: Dep, q: Pkg)
    requires d in p.rdeps && AnswerFor(env, unpacked, d, q)
    ensures Brings(env, unpacked, p, q)
  {
    assert LeadsTo(env, unpacked, p, q);
    assert IsChain(env, unpacked, [p, q]);
    assert [p, q][|[p, q]| - 1] == q;
  }

  // ---------------------------------------------------------------------
  // What may be missing and what may be added
  // ---------------------------------------------------------------------

  /** The installed package is too old for d and must not be updated. */
  predicate HeldBack(env: Env, d: Dep) {
    !env.downloadOnly && env.local(d).Outdated? && env.local(d).hold
  }

  /** What is installed settles d. */
  predicate InstalledDoes(env: Env, d: Dep) {
    !env.downloadOnly && (env.local(d).Satisfied? || env.local(d).Unpacked? || env.local(d).Broken?)
  }

  /** Nothing can be had for d on behalf of f. */
  predicate Unobtainable(env: Env, f: Pkg, d: Dep) {
    && env.named(d) && !env.ignored(d) && !env.selfProvides(f, d)
    && !InstalledDoes(env, d) && (HeldBack(env, d) || env.repo(d).NoPkg?)
  }

  /** The repositories are to be asked, and offer another package than f. */
  predicate Obtainable(env: Env, f: Pkg, d: Dep) {
    !InstalledDoes(env, d) && !HeldBack(env, d) && env.repo(d).Found? && env.repo(d).pkg.name != f.name
  }

  /** The entry is the answer to the dependency d of f: the package is unpacked and is to
      be configured, or the repositories offer it and it is downloaded, updated under the
      mark it had, or newly installed and marked automatic. */
  predicate Answers(env: Env, f: Pkg, d: Dep, e: Entry) {
    && env.named(d) && !env.ignored(d) && !env.selfProvides(f, d)
    && if e.ttype == TConfigure then !env.downloadOnly && env.local(d) == Unpacked(e.pkg, e.auto)
       else
         && env.repo(d) == Found(e.pkg) && e.pkg.name != f.name
         && !InstalledDoes(env, d) && !HeldBack(env, d)
         && (e.ttype == TDownload <==> env.downloadOnly)
         && (e.ttype == TUpdate <==> !env.downloadOnly && env.local(d).Outdated? && env.local(d).sameName)
         && (e.ttype == TInstall <==>
           !env.downloadOnly && (env.local(d).NotInstalled? || (env.local(d).Outdated? && !env.local(d).sameName)))
         && e.ttype != TRemove
         && (if e.ttype == TUpdate then e.auto == env.local(d).auto else e.auto)
  }

  /** When the passes over one dependency come to which action. */
  ghost predicate ActsRightly(env: Env, queued: seq<Pkg>, pkgs: seq<Entry>, p: Pkg, d: Dep, own: bool, a: Action) {
    var settled := env.ignored(d) || env.selfProvides(p, d) || InQueue(env, queued, d) || InTrans(env, pkgs, d);
    && (a.Miss? <==> !settled && Unobtainable(env, p, d))
    && (a.Add? <==> env.named(d) && !settled && !env.downloadOnly && env.local(d).Unpacked?)
    && (a.Add? ==> Answers(env, p, d, a.entry))
    && (a.Take? ==> !settled && (a.ttype == TUnknown || Answers(env, p, d, Entry(a.offer, a.ttype, a.auto))))
    && (a.Take? ==> env.repo(d) == Found(a.offer))
    && (env.named(d) && !settled && Obtainable(env, p, d) ==> a.Take? || a == Fail(ENODEV))
    && (a.Stop? ==> own && env.repo(d).Found? && env.repo(d).pkg.name == p.name)
    && (env.named(d) && (settled || (!env.downloadOnly && env.local(d).Satisfied?)) ==> a.Skip?)
    && (!env.named(d) ==> a == Fail(ENXIO))
  }

  lemma DecidesRightly(env: Env, queued: seq<Pkg>, pkgs: seq<Entry>, p: Pkg, d: Dep, own: bool)
    ensures ActsRightly(env, queued, pkgs, p, d, own, Decide(env, queued, pkgs, p, d, own))
  {
  }

  // ---------------------------------------------------------------------
  // Over the whole walk
  // ---------------------------------------------------------------------

  ghost predicate MissedFor(env: Env, unpacked: bool, p: Pkg, d: Dep) {
    exists f :: Brings(env, unpacked, p, f) && d in f.rdeps && Unobtainable(env, f, d)
  }

  ghost predicate AnsweredFor(env: Env, unpacked: bool, p: Pkg, e: Entry, f: Pkg, d: Dep) {
    Brings(env, unpacked, p, f) && d in f.rdeps && Answers(env, f, d, e)
  }

  ghost predicate AddedFor(env: Env, unpacked: bool, p: Pkg, e: Entry) {
    exists f, d :: AnsweredFor(env, unpacked, p, e, f, d)
  }

  /** From t to r only what p needs was added. */
  ghost predicate Justified(env: Env, unpacked: bool, p: Pkg, t: Trans, r: Trans) {
    && (forall d :: d in r.missing ==> d in t.missing || MissedFor(env, unpacked, p, d))
    && (forall e :: e in r.pkgs ==> e in t.pkgs || AddedFor(env, unpacked, p, e))
  }

  lemma JustifiedThrough(env: Env, unpacked: bool, p: Pkg, q: Pkg, t: Trans, r: Trans)
    requires Brings(env, unpacked, p, q) && Justified(env, unpacked, q, t, r)
    ensures Justified(env, unpacked, p, t, r)
  {
    forall d | d in r.missing && d !in t.missing ensures MissedFor(env, unpacked, p, d) {
      var f :| Brings(env, unpacked, q, f) && d in f.rdeps && Unobtainable(env, f, d);
      BringsTrans(env, unpacked, p, q, f);
    }
    forall e | e in r.pkgs && e !in t.pkgs ensures AddedFor(env, unpacked, p, e) {
      var f, d :| AnsweredFor(env, unpacked, q, e, f, d);
      BringsTrans(env, unpacked, p, q, f);
      assert AnsweredFor(env, unpacked, p, e, f, d);
    }
  }

  lemma JustifiedTrans(env: Env, unpacked: bool, p: Pkg, t: Trans, s: Trans, r: Trans)
    requires Justified(env, unpacked, p, t, s) && Justified(env, unpacked, p, s, r)
    ensures Justified(env, unpacked, p, t, r)
  {
  }

  lemma {:induction false} RemoveKeepsOnly(pkgs: seq<Entry>, pkgver: string)
    ensures forall e :: e in RemovePkgver(pkgs, pkgver) ==> e in pkgs
  {
    if pkgs != [] {
      RemoveKeepsOnly(pkgs[1..], pkgver);
    }
  }

  lemma StoreAddsOnly(env: Env, pkgs: seq<Entry>, e: Entry)
    ensures forall x :: x in Store(env, pkgs, e) ==> x in pkgs || x == e
  {
    match FindName(pkgs, e.pkg.name)
    case None =>
    case Some(i) => RemoveKeepsOnly(pkgs, pkgs[i].pkg.pkgver);
  }

  lemma JustifiedStore(env: Env, unpacked: bool, p: Pkg, i: nat, t: Trans, e: Entry)
    requires i < |p.rdeps| && Answers(env, p, p.rdeps[i], e)
    ensures Justified(env, unpacked, p, t, t.(pkgs := Store(env, t.pkgs, e)))
  {
    StoreAddsOnly(env, t.pkgs, e);
    BringsSelf(env, unpacked, p);
    assert AnsweredFor(env, unpacked, p, e, p, p.rdeps[i]);
  }

  lemma JustifiedMiss(env: Env, unpacked: bool, p: Pkg, i: nat, t: Trans)
    requires i < |p.rdeps| && Unobtainable(env, p, p.rdeps[i])
    ensures Justified(env, unpacked, p, t, t.(missing := AddMissing(env, t.missing, p.rdeps[i])))
  {
    BringsSelf(env, unpacked, p);
  }

  lemma {:induction false} WalkJustified(env: Env, unpacked: bool, t: Trans, queued: seq<Pkg>, p: Pkg, i: nat,
    depth: nat, own: bool)
    requires i <= |p.rdeps| && depth < MAX_DEPTH
    ensures Justified(env, unpacked, p, t, Walk(env, t, queued, p, i, depth, own).0)
    decreases MAX_DEPTH - depth, |p.rdeps| - i
  {
    if i < |p.rdeps| {
      var r := Walk(env, t, queued, p, i, depth, own).0;
      DecidesRightly(env, queued, t.pkgs, p, p.rdeps[i], own);
      match Decide(env, queued, t.pkgs, p, p.rdeps[i], own)
      case Fail(rv) =>
      case Stop =>
      case Skip => WalkJustified(env, unpacked, t, queued, p, i + 1, depth, own);
      case Miss =>
        var t' := t.(missing := AddMissing(env, t.missing, p.rdeps[i]));
        JustifiedMiss(env, unpacked, p, i, t);
        WalkJustified(env, unpacked, t', queued, p, i + 1, depth, own);
        JustifiedTrans(env, unpacked, p, t, t', r);
      case Add(e) =>
        var t' := t.(pkgs := Store(env, t.pkgs, e));
        JustifiedStore(env, unpacked, p, i, t, e);
        WalkJustified(env, unpacked, t', queued, p, i + 1, depth, own);
        JustifiedTrans(env, unpacked, p, t, t', r);
      case Take(q, ttype, auto) =>
        TakeJustified(env, unpacked, t, queued, p, i, depth, own, Entry(q, ttype, auto));
    }
  }

  lemma {:induction false} TakeJustified(env: Env, unpacked: bool, t: Trans, queued: seq<Pkg>, p: Pkg, i: nat,
    depth: nat, own: bool, e: Entry)
    requires i < |p.rdeps| && depth < MAX_DEPTH
    requires Decide(env, queued, t.pkgs, p, p.rdeps[i], own) == Take(e.pkg, e.ttype, e.auto)
    ensures Justified(env, unpacked, p, t, Walk(env, t, queued, p, i, depth, own).0)
    decreases MAX_DEPTH - depth, |p.rdeps| - i, 0
  {
    DecidesRightly(env, queued, t.pkgs, p, p.rdeps[i], own);
    BringsNext(env, unpacked, p, p.rdeps[i], e.pkg);
    var s := WalkInto(env, t, queued, e.pkg, depth);
    IntoJustified(env, unpacked, t, queued, e.pkg, depth);
    JustifiedThrough(env, unpacked, p, e.pkg, t, s.0);
    if s.1 == 0 && e.ttype != TUnknown {
      var t' := s.0.(pkgs := Store(env, s.0.pkgs, e));
      JustifiedStore(env, unpacked, p, i, s.0, e);
      JustifiedTrans(env, unpacked, p, t, s.0, t');
      WalkJustified(env, unpacked, t', queued, p, i + 1, depth, false);
      JustifiedTrans(env, unpacked, p, t, t', Walk(env, t, queued, p, i, depth, own).0);
    }
  }

  lemma {:induction false} IntoJustified(env: Env, unpacked: bool, t: Trans, queued: seq<Pkg>, q: Pkg, depth: nat)
    requires depth < MAX_DEPTH
    ensures Justified(env, unpacked, q, t, WalkInto(env, t, queued, q, depth).0)
    decreases MAX_DEPTH - depth, 0, 0
  {
    if q.rdeps != [] && depth + 1 < MAX_DEPTH {
      WalkJustified(env, unpacked, t, queued + [q], q, 0, depth + 1, true);
    }
  }

  // ---------------------------------------------------------------------
  // The prepared transaction
  // ---------------------------------------------------------------------

  ghost predicate ExplicitMisses(env: Env, unpacked: bool, explicit: seq<Entry>, d: Dep) {
    exists k :: 0 <= k < |explicit| && Live(explicit[k]) && MissedFor(env, unpacked, explicit[k].pkg, d)
  }

  ghost predicate ExplicitAdds(env: Env, unpacked: bool, explicit: seq<Entry>, e: Entry) {
    exists k :: 0 <= k < |explicit| && Live(explicit[k]) && AddedFor(env, unpacked, explicit[k].pkg, e)
  }

  /** Whatever is in t is explicit, or needed by what an explicit entry, neither removed nor
      held, brings along. */
  ghost predicate AllJustified(env: Env, unpacked: bool, explicit: seq<Entry>, t: Trans) {
    && (forall d :: d in t.missing ==> ExplicitMisses(env, unpacked, explicit, d))
    && (forall e :: e in t.pkgs ==> e in explicit || ExplicitAdds(env, unpacked, explicit, e))
  }

  lemma EdgeJustified(env: Env, unpacked: bool, explicit: seq<Entry>, t: Trans, r: Trans, k: nat)
    requires k < |explicit| && Live(explicit[k]) && AllJustified(env, unpacked, explicit, t)
    requires Justified(env, unpacked, explicit[k].pkg, t, r)
    ensures AllJustified(env, unpacked, explicit, r)
  {
  }

  /** Whatever is walked was brought along by an explicit entry. */
  lemma BroughtBy(env: Env, explicit: seq<Entry>, t: Trans, e: Entry) returns (k: nat)
    requires AllJustified(env, true, explicit, t) && e in t.pkgs && Live(e)
    ensures k < |explicit| && Live(explicit[k]) && Brings(env, true, explicit[k].pkg, e.pkg)
  {
    if e in explicit {
      k :| k < |explicit| && explicit[k] == e;
      BringsSelf(env, true, e.pkg);
    } else {
      k :| k < |explicit| && Live(explicit[k]) && AddedFor(env, true, explicit[k].pkg, e);
      var f, d :| AnsweredFor(env, true, explicit[k].pkg, e, f, d);
      BringsNext(env, true, f, d, e.pkg);
      BringsTrans(env, true, explicit[k].pkg, f, e.pkg);
    }
  }

  lemma AppendJustified(env: Env, unpacked: bool, explicit: seq<Entry>, t: Trans, r: Trans, e: Entry)
    requires AllJustified(env, unpacked, explicit, t) && e in t.pkgs && AllJustified(env, unpacked, explicit, r)
    ensures AllJustified(env, unpacked, explicit, r.(pkgs := r.pkgs + [e]))
  {
  }

  /** The walk for an entry that is explicit or was itself brought along. */
  lemma RootJustified(env: Env, explicit: seq<Entry>, t: Trans, e: Entry)
    requires AllJustified(env, true, explicit, t) && e in t.pkgs && Live(e)
    ensures var r := Walk(env, t, [], e.pkg, 0, 0, true).0;
      AllJustified(env, true, explicit, r) && AllJustified(env, true, explicit, r.(pkgs := r.pkgs + [e]))
  {
    var k := BroughtBy(env, explicit, t, e);
    var r := Walk(env, t, [], e.pkg, 0, 0, true).0;
    WalkJustified(env, true, t, [], e.pkg, 0, 0, true);
    JustifiedThrough(env, true, explicit[k].pkg, e.pkg, t, r);
    EdgeJustified(env, true, explicit, t, r, k);
    AppendJustified(env, true, explicit, t, r, e);
  }

  lemma {:induction false} EdgesJustified(env: Env, explicit: seq<Entry>, t: Trans, edges: seq<string>, i: nat)
    requires i <= |explicit| <= |t.pkgs| && AllJustified(env, true, explicit, t)
    ensures AllJustified(env, true, explicit, CollectEdges(env, t, edges, i, |explicit|).0)
    decreases |explicit| - i
  {
    if i < |explicit| {
      var e := t.pkgs[i];
      if e.ttype == TRemove || e.ttype == THold {
        EdgesJustified(env, explicit, t, edges, i + 1);
      } else {
        RootJustified(env, explicit, t, e);
        var r := Walk(env, t, [], e.pkg, 0, 0, true);
        if r.1 == 0 {
          EdgesJustified(env, explicit, r.0.(pkgs := r.0.pkgs + [e]), edges + [e.pkg.pkgver], i + 1);
        }
      }
    }
  }

  lemma {:induction false} HeadsKeepOnly(pkgs: seq<Entry>, edges: seq<string>)
    ensures forall e :: e in RemoveHeads(pkgs, edges) ==> e in pkgs
    decreases |edges|
  {
    if edges != [] {
      RemoveKeepsOnly(pkgs, edges[0]);
      HeadsKeepOnly(RemovePkgver(pkgs, edges[0]), edges[1..]);
    }
  }

  /** Whatever the repositories and the database answer, and whether or not it succeeds,
      preparing a transaction adds only entries that answer a dependency of a package
      brought along by an explicit entry, each with its type and automatic mark, and
      records as missing only dependencies of such packages for which nothing can be
      had. */
  lemma PreparedJustified(env: Env, explicit: seq<Entry>)
    ensures AllJustified(env, true, explicit, Prepare(env, explicit).0)
  {
    EdgesJustified(env, explicit, Trans(explicit, []), [], 0);
    var r := CollectEdges(env, Trans(explicit, []), [], 0, |explicit|);
    HeadsKeepOnly(r.0.pkgs, r.1);
  }

  /** Every dependency of what p brings along is offered, and nothing is held back. */
  ghost predicate AllOffered(env: Env, unpacked: bool, p: Pkg) {
    forall f, d :: Brings(env, unpacked, p, f) && d in f.rdeps ==> env.repo(d).Found? && !HeldBack(env, d)
  }

  lemma OfferedNotMissed(env: Env, unpacked: bool, p: Pkg, d: Dep)
    ensures AllOffered(env, unpacked, p) ==> !MissedFor(env, unpacked, p, d)
  {
  }

  lemma OfferedNotMissing(env: Env, unpacked: bool, explicit: seq<Entry>, t: Trans)
    requires forall k :: 0 <= k < |explicit| && Live(explicit[k]) ==> AllOffered(env, unpacked, explicit[k].pkg)
    requires AllJustified(env, unpacked, explicit, t)
    ensures t.missing == []
  {
    forall d ensures d !in t.missing {
      forall k | 0 <= k < |explicit| && Live(explicit[k]) ensures !MissedFor(env, unpacked, explicit[k].pkg, d) {
        OfferedNotMissed(env, unpacked, explicit[k].pkg, d);
      }
    }
    EmptyOrMember(t.missing);
  }

  lemma EmptyOrMember(q: seq<Dep>)
    ensures q == [] || exists d :: d in q
  {
    if q != [] {
      assert q[0] in q;
    }
  }

  /** If every dependency of everything the explicit entries bring along is offered and
      nothing is held back, nothing is missing. */
  lemma NothingMissing(env: Env, explicit: seq<Entry>)
    requires forall k :: 0 <= k < |explicit| && Live(explicit[k]) ==> AllOffered(env, true, explicit[k].pkg)
    ensures Prepare(env, explicit).0.missing == []
  {
    PreparedJustified(env, explicit);
    OfferedNotMissing(env, true, explicit, Prepare(env, explicit).0);
  }

  // ---------------------------------------------------------------------
  // With one version per name only the repositories lead on
  // ---------------------------------------------------------------------

  lemma StoreAppends(env: Env, offers: set<Pkg>, pkgs: seq<Entry>, e: Entry)
    requires EnvOk(env, offers) && AllIn(env, pkgs, offers) && e.pkg in offers && Live(e)
    ensures pkgs <= Store(env, pkgs, e) && AllIn(env, Store(env, pkgs, e), offers)
  {
    var u := StoreFinds(env, offers, pkgs, e);
  }

  lemma TakeIsOffered(env: Env, offers: set<Pkg>, queued: seq<Pkg>, pkgs: seq<Entry>, p: Pkg, i: nat, own: bool)
    requires EnvOk(env, offers) && p in offers && i < |p.rdeps|
    ensures var a := Decide(env, queued, pkgs, p, p.rdeps[i], own);
      && (a.Take? ==> a.offer in offers && (a.ttype == TUnknown || Live(Entry(a.offer, a.ttype, a.auto))))
      && (a.Add? ==> a.entry.pkg in offers && Live(a.entry))
  {
    assert Needed(offers, p.rdeps[i]) && AnswersOk(env, offers, p.rdeps[i]);
  }

  lemma {:induction false} WalkAppends(env: Env, offers: set<Pkg>, t: Trans, queued: seq<Pkg>, p: Pkg, i: nat,
    depth: nat, own: bool)
    requires EnvOk(env, offers) && p in offers && AllIn(env, t.pkgs, offers) && i <= |p.rdeps| && depth < MAX_DEPTH
    ensures var r := Walk(env, t, queued, p, i, depth, own).0.pkgs; t.pkgs <= r && AllIn(env, r, offers)
    decreases MAX_DEPTH - depth, |p.rdeps| - i
  {
    if i < |p.rdeps| {
      TakeIsOffered(env, offers, queued, t.pkgs, p, i, own);
      match Decide(env, queued, t.pkgs, p, p.rdeps[i], own)
      case Fail(rv) =>
      case Stop =>
      case Skip => WalkAppends(env, offers, t, queued, p, i + 1, depth, own);
      case Miss =>
        WalkAppends(env, offers, t.(missing := AddMissing(env, t.missing, p.rdeps[i])), queued, p, i + 1, depth, own);
      case Add(e) =>
        StoreAppends(env, offers, t.pkgs, e);
        WalkAppends(env, offers, t.(pkgs := Store(env, t.pkgs, e)), queued, p, i + 1, depth, own);
      case Take(q, ttype, auto) =>
        TakeAppends(env, offers, t, queued, p, i, depth, own, Entry(q, ttype, auto));
    }
  }

  lemma {:induction false} TakeAppends(env: Env, offers: set<Pkg>, t: Trans, queued: seq<Pkg>, p: Pkg, i: nat,
    depth: nat, own: bool, e: Entry)
    requires EnvOk(env, offers) && p in offers && AllIn(env, t.pkgs, offers) && i < |p.rdeps| && depth < MAX_DEPTH
    requires Decide(env, queued, t.pkgs, p, p.rdeps[i], own) == Take(e.pkg, e.ttype, e.auto)
    ensures var r := Walk(env, t, queued, p, i, depth, own).0.pkgs; t.pkgs <= r && AllIn(env, r, offers)
    decreases MAX_DEPTH - depth, |p.rdeps| - i, 0
  {
    var r := WalkInto(env, t, queued, e.pkg, depth);
    TakeIsOffered(env, offers, queued, t.pkgs, p, i, own);
    IntoAppends(env, offers, t, queued, e.pkg, depth);
    if r.1 == 0 && e.ttype != TUnknown {
      StoreAppends(env, offers, r.0.pkgs, e);
      WalkAppends(env, offers, r.0.(pkgs := Store(env, r.0.pkgs, e)), queued, p, i + 1, depth, false);
    }
  }

  lemma {:induction false} IntoAppends(env: Env, offers: set<Pkg>, t: Trans, queued: seq<Pkg>, q: Pkg, depth: nat)
    requires EnvOk(env, offers) && q in offers && AllIn(env, t.pkgs, offers) && depth < MAX_DEPTH
    ensures var r := WalkInto(env, t, queued, q, depth).0.pkgs; t.pkgs <= r && AllIn(env, r, offers)
    decreases MAX_DEPTH - depth, 0
  {
    if q.rdeps != [] && depth + 1 < MAX_DEPTH {
      WalkAppends(env, offers, t, queued + [q], q, 0, depth + 1, true);
    }
  }

  lemma {:induction false} EdgesOffered(env: Env, offers: set<Pkg>, explicit: seq<Entry>, t: Trans,
    edges: seq<string>, i: nat)
    requires EnvOk(env, offers) && AllIn(env, t.pkgs, offers)
    requires i <= |explicit| && explicit <= t.pkgs && AllJustified(env, false, explicit, t)
    ensures AllJustified(env, false, explicit, CollectEdges(env, t, edges, i, |explicit|).0)
    decreases |explicit| - i
  {
    if i < |explicit| {
      var e := explicit[i];
      assert t.pkgs[i] == e;
      if !Live(e) {
        EdgesOffered(env, offers, explicit, t, edges, i + 1);
      } else {
        var r := Walk(env, t, [], e.pkg, 0, 0, true);
        WalkJustified(env, false, t, [], e.pkg, 0, 0, true);
        EdgeJustified(env, false, explicit, t, r.0, i);
        WalkAppends(env, offers, t, [], e.pkg, 0, 0, true);
        if r.1 == 0 {
          EdgesOffered(env, offers, explicit, r.0.(pkgs := r.0.pkgs + [e]), edges + [e.pkg.pkgver], i + 1);
        }
      }
    }
  }

  lemma ChainInOffers(env: Env, offers: set<Pkg>, path: seq<Pkg>, i: nat)
    requires EnvOk(env, offers) && IsChain(env, false, path) && path[0] in offers && i < |path|
    ensures path[i] in offers
  {
    for m := 0 to i
      invariant path[m] in offers
    {
      assert LeadsTo(env, false, path[m], path[m + 1]);
      var j :| 0 <= j < |path[m].rdeps| && AnswerFor(env, false, path[m].rdeps[j], path[m + 1]);
      assert Needed(offers, path[m].rdeps[j]) && AnswersOk(env, offers, path[m].rdeps[j]);
    }
  }

  /** What is brought along through the repositories alone is what the graph of wanted
      packages reaches. */
  lemma BringsIsReaches(env: Env, offers: set<Pkg>, p: Pkg, f: Pkg)
    requires EnvOk(env, offers) && p in offers && Brings(env, false, p, f)
    ensures Reaches(WantGraph(env, offers), p, f)
  {
    var g := WantGraph(env, offers);
    var path :| IsChain(env, false, path) && path[0] == p && path[|path| - 1] == f;
    forall i | 0 <= i < |path| ensures path[i] in offers {
      if i > 0 {
        ChainInOffers(env, offers, path, i);
      }
    }
    forall i | 0 <= i < |path| - 1 ensures path[i] in g && path[i + 1] in g[path[i]] {
      assert LeadsTo(env, false, path[i], path[i + 1]);
    }
    assert IsWalk(g, path);
  }

  /** Every dependency that p reaches in the graph of wanted packages is offered, and
      nothing is held back. */
  ghost predicate ReachableOffered(env: Env, offers: set<Pkg>, p: Pkg) {
    forall f, d :: Reaches(WantGraph(env, offers), p, f) && d in f.rdeps ==> env.repo(d).Found? && !HeldBack(env, d)
  }

  lemma OfferedWhereReached(env: Env, g: Digraph<Pkg>, p: Pkg)
    requires forall f :: Brings(env, false, p, f) ==> Reaches(g, p, f)
    requires forall f, d :: Reaches(g, p, f) && d in f.rdeps ==> env.repo(d).Found? && !HeldBack(env, d)
    ensures AllOffered(env, false, p)
  {
  }

  lemma OfferedIfReachable(env: Env, offers: set<Pkg>, p: Pkg)
    requires EnvOk(env, offers) && p in offers && ReachableOffered(env, offers, p)
    ensures AllOffered(env, false, p)
  {
    forall f | Brings(env, false, p, f) ensures Reaches(WantGraph(env, offers), p, f) {
      BringsIsReaches(env, offers, p, f);
    }
    OfferedWhereReached(env, WantGraph(env, offers), p);
  }

  /** With one offered version per name: if every dependency that the explicit entries
      reach in the graph of wanted packages is offered and nothing is held back, nothing
      is missing. */
  lemma NothingMissingReachable(env: Env, offers: set<Pkg>, explicit: seq<Entry>)
    requires EnvOk(env, offers) && AllIn(env, explicit, offers)
    requires forall k :: 0 <= k < |explicit| && Live(explicit[k]) ==> ReachableOffered(env, offers, explicit[k].pkg)
    ensures Prepare(env, explicit).0.missing == []
  {
    EdgesOffered(env, offers, explicit, Trans(explicit, []), [], 0);
    forall k | 0 <= k < |explicit| && Live(explicit[k]) ensures AllOffered(env, false, explicit[k].pkg) {
      OfferedIfReachable(env, offers, explicit[k].pkg);
    }
    OfferedNotMissing(env, false, explicit, CollectEdges(env, Trans(explicit, []), [], 0, |explicit|).0);
  }
}
