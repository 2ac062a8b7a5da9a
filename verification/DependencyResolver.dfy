/** The resolver as the program runs it: a recursive procedure that pushes and
    pops the queued stack and appends to the transaction, and the loops that
    prepare the transaction. */
module DependencyResolver {
  import opened Wrappers
  import opened TransactionDeps
  import opened TransactionDepsTheorems
  import opened TransactionWanted
  import opened TransactionFailure

  class Resolver {
    var pkgs: seq<Entry>
    var missing: seq<Dep>
    var queued: seq<Pkg>

    constructor (explicit: seq<Entry>)
      ensures pkgs == explicit && missing == [] && queued == []
    {
      pkgs, missing, queued := explicit, [], [];
    }

    ghost function Now(): Trans
      reads this
    {
      Trans(pkgs, missing)
    }

    /** Stores e unless its name is there in the same or a greater version. */
    method TransactionStore(env: Env, e: Entry)
      modifies this`pkgs
      ensures pkgs == Store(env, old(pkgs), e)
      ensures OneName(old(pkgs)) && OnePkgver(old(pkgs)) && !env.newer(e.pkg, e.pkg) ==>
        StoredWell(env, old(pkgs), e, pkgs)
    {
      if OneName(pkgs) && OnePkgver(pkgs) && !env.newer(e.pkg, e.pkg) {
        StoreKeepsGreatest(env, pkgs, e);
      }
      var i := 0;
      while i < |pkgs| && pkgs[i].pkg.name != e.pkg.name
        invariant 0 <= i <= |pkgs| && forall j :: 0 <= j < i ==> pkgs[j].pkg.name != e.pkg.name
      {
        i := i + 1;
      }
      if i < |pkgs| {
        FindNameFirst(pkgs, e.pkg.name, i);
        if !env.newer(e.pkg, pkgs[i].pkg) {
          return;
        }
        RemoveByPkgver(pkgs[i].pkg.pkgver);
      }
      pkgs := pkgs + [e];
    }

    /** lib/plist_remove.c:34-100 by pkgver: the first match goes. */
    method RemoveByPkgver(pkgver: string)
      modifies this`pkgs
      ensures pkgs == RemovePkgver(old(pkgs), pkgver)
    {
      for i := 0 to |pkgs|
        invariant pkgs == old(pkgs) && forall j :: 0 <= j < i ==> pkgs[j].pkg.pkgver != pkgver
      {
        if pkgs[i].pkg.pkgver == pkgver {
          RemovesFirst(pkgs, pkgver, i);
          pkgs := pkgs[..i] + pkgs[i + 1..];
          return;
        }
      }
      RemovesNone(pkgs, pkgver);
    }

    method AddMissingReqdep(env: Env, d: Dep)
      modifies this`missing
      ensures missing == AddMissing(env, old(missing), d)
      ensures missing == old(missing) + [d] || missing == old(missing)
      ensures d !in old(missing) ==>
        (d in missing <==> old(missing) == [] || forall x :: x in old(missing) + [d] ==> env.versioned(x))
    {
      var i := 0;
      while i < |missing|
        invariant 0 <= i <= |missing| && missing == old(missing)
        invariant i > 0 ==> env.versioned(d)
        invariant forall j :: 0 <= j < i ==> env.versioned(missing[j])
      {
        if !env.versioned(missing[i]) || !env.versioned(d) {
          return;
        }
        i := i + 1;
      }
      missing := missing + [d];
    }

    /** xbps_find_pkg_in_array and then xbps_find_virtualpkg_in_array on the queued stack. */
    method QueuedMatch(env: Env, d: Dep) returns (found: bool)
      ensures found == InQueue(env, queued, d)
    {
      for i := 0 to |queued|
        invariant forall j :: 0 <= j < i ==> !env.exact(queued[j], d)
      {
        if env.exact(queued[i], d) {
          return true;
        }
      }
      for i := 0 to |queued|
        invariant forall j :: 0 <= j < i ==> !env.virt(queued[j], d)
      {
        if env.virt(queued[i], d) {
          return true;
        }
      }
      return false;
    }

    method FirstMatch(d: Dep, matches: (Pkg, Dep) -> bool) returns (r: Option<nat>)
      ensures r == FindBy(pkgs, d, matches)
    {
      for i := 0 to |pkgs|
        invariant forall j :: 0 <= j < i ==> !matches(pkgs[j].pkg, d)
      {
        if matches(pkgs[i].pkg, d) {
          FindByFirst(pkgs, d, matches, i);
          return Some(i);
        }
      }
      return None;
    }

    /** The same on the transaction, where what is removed or held does not count. */
    method StoredMatch(env: Env, d: Dep) returns (found: bool)
      ensures found == InTrans(env, pkgs, d)
    {
      var i := FirstMatch(d, env.exact);
      if i == None {
        i := FirstMatch(d, env.virt);
      }
      return i.Some? && pkgs[i.value].ttype != TRemove && pkgs[i.value].ttype != THold;
    }

    /** An update of this name is stored. */
    method StoredUpdate(name: string) returns (found: bool)
      ensures found == UpdateQueued(pkgs, name)
    {
      for i := 0 to |pkgs|
        invariant forall j :: 0 <= j < i ==> pkgs[j].pkg.name != name || pkgs[j].ttype != TUpdate
      {
        if pkgs[i].pkg.name == name && pkgs[i].ttype == TUpdate {
          return true;
        }
      }
      return false;
    }

    /** lib/transaction_pkg_deps.c:166-402: the passes over one dependency d of p. */
    method Examine(env: Env, p: Pkg, d: Dep, own: bool) returns (a: Action)
      ensures a == Decide(env, queued, pkgs, p, d, own)
      ensures ActsRightly(env, queued, pkgs, p, d, own, a)
    {
      DecidesRightly(env, queued, pkgs, p, d, own);
      if !env.named(d) {
        return Fail(ENXIO);
      }
      if env.ignored(d) || env.selfProvides(p, d) {
        return Skip;
      }
      var settled := QueuedMatch(env, d);
      if !settled {
        settled := StoredMatch(env, d);
      }
      if settled {
        return Skip;
      }
      var ttype, auto := TInstall, true;
      if env.downloadOnly {
        ttype := TDownload;
      } else {
        match env.local(d) {
          case Broken(rv) => return Fail(rv);
          case Satisfied => return Skip;
          case Unpacked(cur, keep) => return Add(Entry(cur, TConfigure, keep));
          case NotInstalled =>
          case HalfRemoved(held) => ttype := if held then THold else TUnknown;
          case Outdated(sameName, hold, keep) =>
            if hold {
              return Miss;
            }
            if sameName {
              ttype, auto := TUpdate, keep;
            }
        }
      }
      a := AskRepo(env, p, d, ttype, auto, own);
    }

    /** Pass 5 and the checks on what it found. */
    method AskRepo(env: Env, p: Pkg, d: Dep, ttype: TType, auto: bool, own: bool) returns (a: Action)
      ensures a == match env.repo(d)
        case RepoError(rv) => Fail(rv)
        case NoPkg => Miss
        case Found(q) =>
          if q.name == p.name then if own then Stop else Skip
          else if ttype == TUpdate && env.exact(q, d) && UpdateQueued(pkgs, q.name) then Fail(ENODEV)
          else Take(q, ttype, auto)
    {
      match env.repo(d) {
        case RepoError(rv) => return Fail(rv);
        case NoPkg => return Miss;
        case Found(q) =>
          if q.name == p.name {
            return if own then Stop else Skip;
          }
          if ttype == TUpdate && env.exact(q, d) {
            var queuedUpdate := StoredUpdate(q.name);
            if queuedUpdate {
              return Fail(ENODEV);
            }
          }
          return Take(q, ttype, auto);
      }
    }

    /** Collects the run dependencies of p and, recursively, of what they bring. */
    method RepoDeps(env: Env, p: Pkg, depth: nat) returns (rv: int)
      requires depth <= MAX_DEPTH
      modifies this
      ensures depth == MAX_DEPTH ==> rv == ELOOP && Now() == old(Now())
      ensures depth < MAX_DEPTH ==> (Now(), rv) == Walk(env, old(Now()), old(queued), p, 0, depth, true)
      ensures rv == 0 ==> queued == old(queued)
      decreases MAX_DEPTH - depth, 1
    {
      if depth >= MAX_DEPTH {
        return ELOOP;
      }
      var i, own := 0, true;
      while i < |p.rdeps|
        invariant 0 <= i <= |p.rdeps| && queued == old(queued)
        invariant Walk(env, Now(), queued, p, i, depth, own) == Walk(env, old(Now()), old(queued), p, 0, depth, true)
        decreases |p.rdeps| - i
      {
        var d := p.rdeps[i];
        var action := Examine(env, p, d, own);
        match action {
          case Fail(code) => return code;
          case Skip =>
          case Stop => return 0;
          case Miss => AddMissingReqdep(env, d);
          case Add(e) => TransactionStore(env, e);
          case Take(q, ttype, auto) =>
            own := false;
            rv := TakePkg(env, q, depth, ttype, auto);
            if rv != 0 {
              return;
            }
        }
        i := i + 1;
      }
      rv := 0;
    }

    /** lib/transaction_pkg_deps.c:437-488: q is queued while its own dependencies are
        collected, and then stored. */
    method TakePkg(env: Env, q: Pkg, depth: nat, ttype: TType, auto: bool) returns (rv: int)
      requires depth < MAX_DEPTH
      modifies this
      ensures var r := WalkInto(env, old(Now()), old(queued), q, depth);
        if r.1 != 0 then (Now(), rv) == r
        else if ttype == TUnknown then (Now(), rv) == (r.0, EINVAL)
        else (Now(), rv) == (r.0.(pkgs := Store(env, r.0.pkgs, Entry(q, ttype, auto))), 0)
      ensures rv == 0 ==> queued == old(queued)
      decreases MAX_DEPTH - depth, 0
    {
      queued := queued + [q];
      if q.rdeps != [] {
        rv := RepoDeps(env, q, depth + 1);
        if rv != 0 {
          return;
        }
      }
      queued := queued[..|queued| - 1];
      if ttype == TUnknown {
        return EINVAL;
      }
      TransactionStore(env, Entry(q, ttype, auto));
      rv := 0;
    }

    /** Collects the dependencies of every explicit entry, appends the entry after
        them and finally removes the heads. */
    method PrepareTransaction(env: Env) returns (rv: int)
      requires missing == [] && queued == []
      modifies this
      ensures (Now(), rv) == Prepare(env, old(pkgs))
      ensures rv == 0 && missing == [] && OneName(old(pkgs)) ==>
        forall offers :: EnvOk(env, offers) && AllIn(env, old(pkgs), offers) ==>
          IsComplete(env, offers, old(pkgs), pkgs)
      ensures AllJustified(env, true, old(pkgs), Now())
      ensures rv == 0 || ExplicitFails(env, old(pkgs), rv)
      ensures (forall k :: 0 <= k < |old(pkgs)| && Live(old(pkgs)[k]) ==> AllOffered(env, true, old(pkgs)[k].pkg)) ==>
        missing == []
    {
      PreparedJustified(env, pkgs);
      PrepareFails(env, pkgs);
      if forall k :: 0 <= k < |pkgs| && Live(pkgs[k]) ==> AllOffered(env, true, pkgs[k].pkg) {
        NothingMissing(env, pkgs);
      }
      rv := CollectAndTrim(env);
      if rv == 0 && missing == [] && OneName(old(pkgs)) {
        forall offers | EnvOk(env, offers) && AllIn(env, old(pkgs), offers)
          ensures IsComplete(env, offers, old(pkgs), pkgs)
        {
          PreparedComplete(env, offers, old(pkgs));
        }
      }
    }

    /** lib/transaction_prepare.c:306-341. */
    method CollectAndTrim(env: Env) returns (rv: int)
      requires missing == [] && queued == []
      modifies this
      ensures (Now(), rv) == Prepare(env, old(pkgs))
    {
      var cnt := |pkgs|;
      var edges: seq<string> := [];
      var i := 0;
      while i < cnt
        invariant 0 <= i <= cnt <= |pkgs| && queued == []
        invariant CollectEdges(env, Now(), edges, i, cnt) == CollectEdges(env, Trans(old(pkgs), []), [], 0, cnt)
      {
        var e := pkgs[i];
        if e.ttype != TRemove && e.ttype != THold {
          edges := edges + [e.pkg.pkgver];
          rv := RepoDeps(env, e.pkg, 0);
          if rv != 0 {
            return;
          }
          pkgs := pkgs + [e];
        }
        i := i + 1;
      }
      i := 0;
      ghost var collected := pkgs;
      assert edges[0..] == edges;
      while i < |edges|
        invariant 0 <= i <= |edges|
        invariant RemoveHeads(pkgs, edges[i..]) == RemoveHeads(collected, edges)
        invariant Trans(collected, missing) == CollectEdges(env, Trans(old(pkgs), []), [], 0, cnt).0
      {
        assert edges[i..][1..] == edges[i + 1..];
        RemoveByPkgver(edges[i]);
        i := i + 1;
      }
      rv := 0;
    }
  }

  lemma {:induction false} FindNameFirst(pkgs: seq<Entry>, name: string, i: nat)
    requires i < |pkgs| && pkgs[i].pkg.name == name && forall j :: 0 <= j < i ==> pkgs[j].pkg.name != name
    ensures FindName(pkgs, name) == Some(i)
  {
    if i > 0 {
      assert pkgs[0].pkg.name != name;
      FindNameFirst(pkgs[1..], name, i - 1);
    }
  }

  lemma {:induction false} FindByFirst(pkgs: seq<Entry>, d: Dep, matches: (Pkg, Dep) -> bool, i: nat)
    requires i < |pkgs| && matches(pkgs[i].pkg, d) && forall j :: 0 <= j < i ==> !matches(pkgs[j].pkg, d)
    ensures FindBy(pkgs, d, matches) == Some(i)
  {
    if i > 0 {
      assert !matches(pkgs[0].pkg, d);
      FindByFirst(pkgs[1..], d, matches, i - 1);
    }
  }

  lemma {:induction false} RemovesFirst(pkgs: seq<Entry>, pkgver: string, i: nat)
    requires i < |pkgs| && pkgs[i].pkg.pkgver == pkgver && forall j :: 0 <= j < i ==> pkgs[j].pkg.pkgver != pkgver
    ensures RemovePkgver(pkgs, pkgver) == pkgs[..i] + pkgs[i + 1..]
  {
    if i > 0 {
      assert pkgs[0].pkg.pkgver != pkgver;
      RemovesFirst(pkgs[1..], pkgver, i - 1);
      assert pkgs[..i] == [pkgs[0]] + pkgs[1..][..i - 1] && pkgs[1..][i..] == pkgs[i + 1..];
    }
  }

  lemma {:induction false} RemovesNone(pkgs: seq<Entry>, pkgver: string)
    requires forall j :: 0 <= j < |pkgs| ==> pkgs[j].pkg.pkgver != pkgver
    ensures RemovePkgver(pkgs, pkgver) == pkgs
  {
    if pkgs != [] {
      assert pkgs[0].pkg.pkgver != pkgver;
      RemovesNone(pkgs[1..], pkgver);
    }
  }
}
