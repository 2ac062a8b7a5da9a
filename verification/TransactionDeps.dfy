/** Collecting the dependencies of a transaction: the recursive walk over run_depends
    with its stack of queued packages, storing packages into the transaction, and
    the removal of the duplicated heads when the transaction is prepared. */
module TransactionDeps {
  import opened Wrappers

  const ENXIO := 6
  const ENODEV := 19
  const EINVAL := 22
  const ELOOP := 40
  const MAX_DEPTH := 512

  type Dep = string

  datatype Pkg = Pkg(name: string, pkgver: string, rdeps: seq<Dep>)

  datatype TType = TInstall | TUpdate | TConfigure | TDownload | THold | TRemove | TUnknown

  datatype Entry = Entry(pkg: Pkg, ttype: TType, auto: bool)

  /** What the package database says about a dependency. A half-removed package can
      match and still be in no state the passes know. */
  datatype Local =
    | NotInstalled
    | Satisfied
    | Unpacked(cur: Pkg, auto: bool)
    | HalfRemoved(held: bool)
    | Outdated(sameName: bool, hold: bool, auto: bool)
    | Broken(rv: int)

  datatype Offer = NoPkg | Found(pkg: Pkg) | RepoError(rv: int)

  /** The repositories, the package database and pattern matching, as the walk sees
      them; `repo` asks the one repository an installed package is locked to, or else
      all of them. `exact` matches a package by name and version, `virt` by what it
      provides; `newer` is the order of xbps_cmpver; `versioned` says whether a
      pattern has a version operator. */
  datatype Env = Env(
    named: Dep -> bool,
    ignored: Dep -> bool,
    versioned: Dep -> bool,
    selfProvides: (Pkg, Dep) -> bool,
    exact: (Pkg, Dep) -> bool,
    virt: (Pkg, Dep) -> bool,
    local: Dep -> Local,
    repo: Dep -> Offer,
    newer: (Pkg, Pkg) -> bool,
    downloadOnly: bool)

  datatype Trans = Trans(pkgs: seq<Entry>, missing: seq<Dep>)

  predicate Meets(env: Env, p: Pkg, d: Dep) {
    env.exact(p, d) || env.virt(p, d)
  }

  // ---------------------------------------------------------------------
  // Looking up and storing
  // ---------------------------------------------------------------------

  function FindName(pkgs: seq<Entry>, name: string): (r: Option<nat>)
    ensures r.Some? ==> r.value < |pkgs| && pkgs[r.value].pkg.name == name
    ensures r.None? ==> forall i :: 0 <= i < |pkgs| ==> pkgs[i].pkg.name != name
  {
    if pkgs == [] then None
    else if pkgs[0].pkg.name == name then Some(0)
    else match FindName(pkgs[1..], name)
         case None => None
         case Some(i) => Some(i + 1)
  }

  function FindBy(pkgs: seq<Entry>, d: Dep, matches: (Pkg, Dep) -> bool): (r: Option<nat>)
    ensures r.Some? ==> r.value < |pkgs| && matches(pkgs[r.value].pkg, d)
    ensures r.None? ==> forall i :: 0 <= i < |pkgs| ==> !matches(pkgs[i].pkg, d)
  {
    if pkgs == [] then None
    else if matches(pkgs[0].pkg, d) then Some(0)
    else match FindBy(pkgs[1..], d, matches)
         case None => None
         case Some(i) => Some(i + 1)
  }

  /** The first real match, or else the first virtual one. */
  function FindDep(env: Env, pkgs: seq<Entry>, d: Dep): (r: Option<nat>)
    ensures r.Some? ==> r.value < |pkgs| && Meets(env, pkgs[r.value].pkg, d)
    ensures r.None? ==> forall i :: 0 <= i < |pkgs| ==> !Meets(env, pkgs[i].pkg, d)
  {
    var r := FindBy(pkgs, d, env.exact);
    if r.Some? then r else FindBy(pkgs, d, env.virt)
  }

  predicate InQueue(env: Env, queued: seq<Pkg>, d: Dep) {
    exists i :: 0 <= i < |queued| && Meets(env, queued[i], d)
  }

  predicate InTrans(env: Env, pkgs: seq<Entry>, d: Dep) {
    var r := FindDep(env, pkgs, d);
    r.Some? && pkgs[r.value].ttype != TRemove && pkgs[r.value].ttype != THold
  }

  /** Removes the first entry with this pkgver. */
  function RemovePkgver(pkgs: seq<Entry>, pkgver: string): (r: seq<Entry>)
    ensures |pkgs| - 1 <= |r| <= |pkgs|
  {
    if pkgs == [] then []
    else if pkgs[0].pkg.pkgver == pkgver then pkgs[1..]
    else [pkgs[0]] + RemovePkgver(pkgs[1..], pkgver)
  }

  /** One entry per name; a stored version gives way only to a greater one. */
  function Store(env: Env, pkgs: seq<Entry>, e: Entry): (r: seq<Entry>)
    ensures |r| >= |pkgs|
  {
    match FindName(pkgs, e.pkg.name)
    case None => pkgs + [e]
    case Some(i) =>
      if env.newer(e.pkg, pkgs[i].pkg) then RemovePkgver(pkgs, pkgs[i].pkg.pkgver) + [e] else pkgs
  }

  /** Stored patterns carry a prefix that no name has, so the search for an equal
      name never succeeds; a pattern without an operator ends the search and is not
      added. */
  function AddMissing(env: Env, missing: seq<Dep>, d: Dep): seq<Dep> {
    if missing != [] && (!env.versioned(d) || exists i :: 0 <= i < |missing| && !env.versioned(missing[i])) then missing
    else missing + [d]
  }

  // ---------------------------------------------------------------------
  // The walk over the run dependencies of p, from the i-th on
  // ---------------------------------------------------------------------
  // `own` says that the array variable still denotes p's own run_depends: removing
  // a dependency of p on itself from it ends the iteration.

  predicate Settled(env: Env, queued: seq<Pkg>, pkgs: seq<Entry>, p: Pkg, d: Dep) {
    env.ignored(d) || env.selfProvides(p, d) || InQueue(env, queued, d) || InTrans(env, pkgs, d)
  }

  function LocalOf(env: Env, d: Dep): Local {
    if env.downloadOnly then NotInstalled else env.local(d)
  }

  function WantedType(env: Env, l: Local): TType {
    if env.downloadOnly then TDownload
    else if l.HalfRemoved? then if l.held then THold else TUnknown
    else if l.Outdated? && l.sameName then TUpdate
    else TInstall
  }

  function WantedAuto(l: Local): bool {
    !l.Outdated? || !l.sameName || l.auto
  }

  predicate UpdateQueued(pkgs: seq<Entry>, name: string) {
    exists i :: 0 <= i < |pkgs| && pkgs[i].pkg.name == name && pkgs[i].ttype == TUpdate
  }

  /** What the passes over one dependency come to. */
  datatype Action =
    | Fail(rv: int)
    | Skip
    | Stop
    | Miss
    | Add(entry: Entry)
    | Take(offer: Pkg, ttype: TType, auto: bool)

  function TakeFromRepo(env: Env, pkgs: seq<Entry>, p: Pkg, d: Dep, l: Local, own: bool): Action {
    match env.repo(d)
    case RepoError(rv) => Fail(rv)
    case NoPkg => Miss
    case Found(q) =>
      if q.name == p.name then if own then Stop else Skip
      else if l.Outdated? && l.sameName && env.exact(q, d) && UpdateQueued(pkgs, q.name) then Fail(ENODEV)
      else Take(q, WantedType(env, l), WantedAuto(l))
  }

  function Decide(env: Env, queued: seq<Pkg>, pkgs: seq<Entry>, p: Pkg, d: Dep, own: bool): Action {
    if !env.named(d) then Fail(ENXIO)
    else if Settled(env, queued, pkgs, p, d) then Skip
    else
      match LocalOf(env, d)
      case Broken(rv) => Fail(rv)
      case Satisfied => Skip
      case Unpacked(cur, auto) => Add(Entry(cur, TConfigure, auto))
      case NotInstalled => TakeFromRepo(env, pkgs, p, d, NotInstalled, own)
      case HalfRemoved(held) => TakeFromRepo(env, pkgs, p, d, HalfRemoved(held), own)
      case Outdated(sameName, hold, auto) =>
        if hold then Miss else TakeFromRepo(env, pkgs, p, d, Outdated(sameName, hold, auto), own)
  }

  function Walk(env: Env, t: Trans, queued: seq<Pkg>, p: Pkg, i: nat, depth: nat, own: bool): (r: (Trans, int))
    requires i <= |p.rdeps| && depth < MAX_DEPTH
    ensures |r.0.pkgs| >= |t.pkgs|
    decreases MAX_DEPTH - depth, |p.rdeps| - i
  {
    if i == |p.rdeps| then (t, 0)
    else
      match Decide(env, queued, t.pkgs, p, p.rdeps[i], own)
      case Fail(rv) => (t, rv)
      case Skip => Walk(env, t, queued, p, i + 1, depth, own)
      case Stop => (t, 0)
      case Miss => Walk(env, t.(missing := AddMissing(env, t.missing, p.rdeps[i])), queued, p, i + 1, depth, own)
      case Add(e) => Walk(env, t.(pkgs := Store(env, t.pkgs, e)), queued, p, i + 1, depth, own)
      case Take(q, ttype, auto) =>
        var r := WalkInto(env, t, queued, q, depth);
        if r.1 != 0 then r
        else if ttype == TUnknown then (r.0, EINVAL)
        else Walk(env, r.0.(pkgs := Store(env, r.0.pkgs, Entry(q, ttype, auto))), queued, p, i + 1, depth, false)
  }

  /** Collects the dependencies of q while q is on the queued stack. */
  function WalkInto(env: Env, t: Trans, queued: seq<Pkg>, q: Pkg, depth: nat): (r: (Trans, int))
    requires depth < MAX_DEPTH
    ensures |r.0.pkgs| >= |t.pkgs|
    decreases MAX_DEPTH - depth, 0
  {
    if q.rdeps == [] then (t, 0)
    else if depth + 1 >= MAX_DEPTH then (t, ELOOP)
    else Walk(env, t, queued + [q], q, 0, depth + 1, true)
  }

  // ---------------------------------------------------------------------
  // Preparing the transaction
  // ---------------------------------------------------------------------

  /** From the i-th explicit entry on: its dependencies are collected, then the
      entry is appended again and its pkgver recorded as an edge. */
  function CollectEdges(env: Env, t: Trans, edges: seq<string>, i: nat, cnt: nat): (Trans, seq<string>, int)
    requires i <= cnt <= |t.pkgs|
    decreases cnt - i
  {
    if i == cnt then (t, edges, 0)
    else
      var e := t.pkgs[i];
      if e.ttype == TRemove || e.ttype == THold then CollectEdges(env, t, edges, i + 1, cnt)
      else
        var r := Walk(env, t, [], e.pkg, 0, 0, true);
        if r.1 != 0 then (r.0, edges + [e.pkg.pkgver], r.1)
        else CollectEdges(env, r.0.(pkgs := r.0.pkgs + [e]), edges + [e.pkg.pkgver], i + 1, cnt)
  }

  /** Removes the first entry of each recorded pkgver. */
  function RemoveHeads(pkgs: seq<Entry>, edges: seq<string>): seq<Entry>
    decreases |edges|
  {
    if edges == [] then pkgs else RemoveHeads(RemovePkgver(pkgs, edges[0]), edges[1..])
  }

  /** The transaction after its dependencies were collected. */
  function Prepare(env: Env, explicit: seq<Entry>): (Trans, int) {
    var r := CollectEdges(env, Trans(explicit, []), [], 0, |explicit|);
    if r.2 != 0 then (r.0, r.2) else (r.0.(pkgs := RemoveHeads(r.0.pkgs, r.1)), 0)
  }
}
