/** Planning which obsolete paths each package deletes. The items are visited
    longest path first, so a directory is visited after everything beneath it. */
module FilePlan {
  import opened Wrappers
  import opened TransactionFiles

  const ENOTEMPTY := 39

  /** What xbps_file_sha256_check returns: 0, ENOENT, ERANGE or another errno. */
  datatype ShaCheck = Matches | Absent | Mismatch | ReadError(errno: int)

  /** What opendir and readdir show: `visible` counts entries but "." and "..". */
  datatype DirState = Missing | Unreadable | Listed(visible: nat)

  /** The file system and the configuration, as the planner looks at them; the
      base symlinks are fixed in the program (see BASE_SYMLINKS), but nothing
      below depends on which they are. */
  datatype Env = Env(preserved: set<string>, baseSymlinks: seq<string>, forceRemove: bool,
    sha: (string, string) -> ShaCheck, link: string -> Option<string>, dir: string -> DirState)

  datatype Plan = Plan(deleted: set<string>, obsoletes: map<string, seq<string>>, rv: int, failed: bool)

  /** These are symlinks on the root file system and must never be removed. */
  const BASE_SYMLINKS: seq<string> :=
    ["/bin", "/sbin", "/usr/sbin", "/lib", "/lib32", "/lib64", "/usr/lib32", "/usr/lib64", "/var/run"]

  predicate Beneath(dir: string, file: string) {
    dir < file && file[|dir|] == '/'
  }

  /** How many of the first n items lie beneath dir. */
  function CountBeneath(items: seq<Item>, n: nat, dir: string): nat
    requires n <= |items|
  {
    if n == 0 then 0 else CountBeneath(items, n - 1, dir) + (if Beneath(dir, items[n - 1].file) then 1 else 0)
  }

  predicate CanDeleteDirectory(items: seq<Item>, n: nat, deleted: set<string>, dir: string, state: DirState)
    requires n <= |items|
  {
    match state
    case Missing => true
    case Unreadable => false
    case Listed(visible) =>
      (forall j :: 0 <= j < n && Beneath(dir, items[j].file) ==> items[j].file in deleted)
      && visible <= CountBeneath(items, n, dir)
  }

  /** The package that deletes the path: the one processed first. */
  function Remover(it: Item): string
    requires it.gone.Some?
  {
    if it.made.Some? && it.gone.value.index > it.made.value.index then it.made.value.pkgname else it.gone.value.pkgname
  }

  function ListOf(obsoletes: map<string, seq<string>>, pkgname: string): seq<string> {
    if pkgname in obsoletes then obsoletes[pkgname] else []
  }

  function Schedule(st: Plan, it: Item): Plan
    requires it.gone.Some?
  {
    var pkg := Remover(it);
    st.(deleted := st.deleted + {it.file}, obsoletes := st.obsoletes[pkg := ListOf(st.obsoletes, pkg) + [it.file]])
  }

  /** On removal without force, a symlink that no longer points where the package
      left it stays. */
  predicate KeptLink(it: Item, env: Env)
    requires it.gone.Some?
  {
    var o := it.gone.value;
    o.removepkg && o.typ == Link && it.made.None? && !env.forceRemove && env.link(it.file) != Some(o.target)
  }

  /** An obsolete path: checked against its checksum, then scheduled. */
  function Obsolete(st: Plan, it: Item, env: Env): Plan
    requires it.gone.Some?
  {
    var o := it.gone.value;
    if it.file in env.baseSymlinks then st
    else
      var check := if o.sha256.Some? then env.sha(it.file, o.sha256.value) else Matches;
      var st' := if o.sha256.None? then st else st.(rv := if check.ReadError? then check.errno else 0);
      if check == Absent then st'.(deleted := st'.deleted + {it.file})
      else if check == Mismatch && !(o.removepkg && it.made.None? && env.forceRemove) then st'
      else if KeptLink(it, env) then st'
      else Schedule(st', it)
  }

  /** The directory is to be replaced by a file or a link. */
  predicate Replaced(it: Item) {
    && it.gone.Some? && it.made.Some?
    && it.gone.value.typ == Dir && (it.made.value.typ == File || it.made.value.typ == Link)
  }

  /** One turn of the loop of collect_obsoletes, for item i. */
  function Visit(items: seq<Item>, i: nat, env: Env, st: Plan): Plan
    requires i < |items| && (items[i].gone.Some? || items[i].made.Some?)
  {
    var it := items[i];
    if it.file in env.preserved then st
    else if it.made.None? then
      if it.gone.value.preserve then st else Obsolete(st, it, env)
    else if it.made.value.typ == ConfFile || it.gone.None? then st
    else if it.gone.value.typ == Dir && it.made.value.typ != Dir then
      if CanDeleteDirectory(items, i, st.deleted, it.file, env.dir(it.file)) then Obsolete(st, it, env)
      else st.(failed := true, rv := ENOTEMPTY)
    else if it.made.value.typ != it.gone.value.typ then Obsolete(st, it, env)
    else st
  }

  predicate Owned(items: seq<Item>) {
    forall i :: 0 <= i < |items| ==> items[i].gone.Some? || items[i].made.Some?
  }

  predicate OnePerPath(items: seq<Item>) {
    forall i, j :: 0 <= i < j < |items| ==> items[i].file != items[j].file
  }

  predicate LongestFirst(items: seq<Item>) {
    forall i, j :: 0 <= i < j < |items| ==> |items[i].file| >= |items[j].file|
  }

  function PlanUpTo(items: seq<Item>, n: nat, env: Env): Plan
    requires Owned(items) && n <= |items|
  {
    if n == 0 then Plan({}, map[], 0, false)
    else
      var st := PlanUpTo(items, n - 1, env);
      if st.failed then st else Visit(items, n - 1, env, st)
  }

  // ---------------------------------------------------------------------
  // What is scheduled, by whom, and in which order
  // ---------------------------------------------------------------------

  type Lists = map<string, seq<string>>

  /** The path is that of item i, one of the first n, and pkg is its remover. */
  ghost predicate Places(items: seq<Item>, n: nat, pkg: string, path: string, i: nat) {
    i < n <= |items| && items[i].file == path && items[i].gone.Some? && pkg == Remover(items[i])
  }

  ghost predicate Placed(items: seq<Item>, n: nat, pkg: string, path: string) {
    exists i: nat :: Places(items, n, pkg, path, i)
  }

  /** Each path is scheduled by its remover. */
  ghost predicate Sound(items: seq<Item>, n: nat, obsoletes: Lists) {
    forall pkg, a :: pkg in obsoletes && 0 <= a < |obsoletes[pkg]| ==> Placed(items, n, pkg, obsoletes[pkg][a])
  }

  ghost predicate Marked(deleted: set<string>, obsoletes: Lists) {
    forall pkg, a :: pkg in obsoletes && 0 <= a < |obsoletes[pkg]| ==> obsoletes[pkg][a] in deleted
  }

  predicate Before(p: string, q: string) {
    |p| >= |q| && p != q
  }

  /** Within a list longer paths come first, and none comes twice. */
  ghost predicate Ordered(obsoletes: Lists) {
    forall pkg, a, b :: pkg in obsoletes && 0 <= a < b < |obsoletes[pkg]| ==>
      Before(obsoletes[pkg][a], obsoletes[pkg][b])
  }

  lemma PlacedMore(items: seq<Item>, n: nat, pkg: string, path: string)
    requires Placed(items, n, pkg, path) && n < |items|
    ensures Placed(items, n + 1, pkg, path)
  {
    var i: nat :| Places(items, n, pkg, path, i);
    assert Places(items, n + 1, pkg, path, i);
  }

  lemma SoundMore(items: seq<Item>, n: nat, obsoletes: Lists)
    requires Sound(items, n, obsoletes) && n < |items|
    ensures Sound(items, n + 1, obsoletes)
  {
    forall pkg, a | pkg in obsoletes && 0 <= a < |obsoletes[pkg]| ensures Placed(items, n + 1, pkg, obsoletes[pkg][a]) {
      PlacedMore(items, n, pkg, obsoletes[pkg][a]);
    }
  }

  lemma ScheduleSound(items: seq<Item>, n: nat, st: Plan)
    requires n < |items| && items[n].gone.Some? && Sound(items, n, st.obsoletes)
    ensures Sound(items, n + 1, Schedule(st, items[n]).obsoletes)
  {
    var it := items[n];
    var r := Schedule(st, it).obsoletes;
    forall pkg, a | pkg in r && 0 <= a < |r[pkg]| ensures Placed(items, n + 1, pkg, r[pkg][a]) {
      if pkg == Remover(it) && a == |r[pkg]| - 1 {
        assert Places(items, n + 1, pkg, it.file, n);
      } else {
        assert r[pkg][a] == st.obsoletes[pkg][a];
        PlacedMore(items, n, pkg, st.obsoletes[pkg][a]);
      }
    }
  }

  lemma ScheduleOrdered(items: seq<Item>, n: nat, st: Plan)
    requires OnePerPath(items) && LongestFirst(items) && n < |items| && items[n].gone.Some?
    requires Sound(items, n, st.obsoletes) && Ordered(st.obsoletes)
    ensures Ordered(Schedule(st, items[n]).obsoletes)
  {
    var it := items[n];
    var r := Schedule(st, it).obsoletes;
    forall pkg, a, b | pkg in r && 0 <= a < b < |r[pkg]| ensures Before(r[pkg][a], r[pkg][b]) {
      if pkg == Remover(it) && b == |r[pkg]| - 1 {
        assert r[pkg][a] == st.obsoletes[pkg][a];
        var i: nat :| Places(items, n, pkg, st.obsoletes[pkg][a], i);
        assert items[i].file != items[n].file;
      } else {
        assert r[pkg][a] == st.obsoletes[pkg][a] && r[pkg][b] == st.obsoletes[pkg][b];
      }
    }
  }

  /** A visit either leaves the lists alone or appends the item to the list of
      its remover; it never unmarks a path. */
  ghost predicate VisitEffect(it: Item, st: Plan, r: Plan) {
    || (r.obsoletes == st.obsoletes && st.deleted <= r.deleted)
    || (it.gone.Some? && r.obsoletes == Schedule(st, it).obsoletes && r.deleted == Schedule(st, it).deleted)
  }

  lemma VisitHas(items: seq<Item>, i: nat, env: Env, st: Plan)
    requires i < |items| && (items[i].gone.Some? || items[i].made.Some?)
    ensures VisitEffect(items[i], st, Visit(items, i, env, st))
  {
  }

  ghost predicate PlanOk(items: seq<Item>, n: nat, st: Plan) {
    Sound(items, n, st.obsoletes) && Ordered(st.obsoletes) && Marked(st.deleted, st.obsoletes)
  }

  lemma EffectKeeps(items: seq<Item>, n: nat, st: Plan, r: Plan)
    requires OnePerPath(items) && LongestFirst(items) && n < |items| && VisitEffect(items[n], st, r)
    requires PlanOk(items, n, st)
    ensures PlanOk(items, n + 1, r)
  {
    if r.obsoletes == st.obsoletes && st.deleted <= r.deleted {
      SoundMore(items, n, st.obsoletes);
    } else {
      ScheduleSound(items, n, st);
      ScheduleOrdered(items, n, st);
    }
  }

  lemma PlanStep(items: seq<Item>, n: nat, env: Env)
    requires Owned(items) && n < |items|
    ensures VisitEffect(items[n], PlanUpTo(items, n, env), PlanUpTo(items, n + 1, env))
  {
    VisitHas(items, n, env, PlanUpTo(items, n, env));
  }

  lemma PlanKeeps(items: seq<Item>, n: nat, env: Env)
    requires Owned(items) && OnePerPath(items) && LongestFirst(items) && n < |items|
    requires PlanOk(items, n, PlanUpTo(items, n, env))
    ensures PlanOk(items, n + 1, PlanUpTo(items, n + 1, env))
  {
    PlanStep(items, n, env);
    EffectKeeps(items, n, PlanUpTo(items, n, env), PlanUpTo(items, n + 1, env));
  }

  /** Each path is scheduled at most once, by its remover; within a list longer
      paths come first. */
  lemma PlanSound(items: seq<Item>, n: nat, env: Env)
    requires Owned(items) && OnePerPath(items) && LongestFirst(items) && n <= |items|
    ensures PlanOk(items, n, PlanUpTo(items, n, env))
  {
    var m := 0;
    while m < n
      invariant m <= n && PlanOk(items, m, PlanUpTo(items, m, env))
    {
      PlanKeeps(items, m, env);
      m := m + 1;
    }
  }

  // ---------------------------------------------------------------------
  // The exact plan
  // ---------------------------------------------------------------------

  /** The path goes away: nobody provides it any more and its package does not preserve
      it, or it is provided as something else than before and not as a configuration
      file. */
  predicate Superseded(it: Item) {
    && it.gone.Some?
    && if it.made.None? then !it.gone.value.preserve
       else it.made.value.typ != ConfFile && it.made.value.typ != it.gone.value.typ
  }

  /** It may be touched at all. */
  predicate Touchable(it: Item, env: Env) {
    Superseded(it) && it.file !in env.preserved && it.file !in env.baseSymlinks
  }

  /** What the file on disk is compared with its checksum. */
  function CheckOf(it: Item, env: Env): ShaCheck
    requires it.gone.Some?
  {
    if it.gone.value.sha256.Some? then env.sha(it.file, it.gone.value.sha256.value) else Matches
  }

  /** Its package is removed by force and nobody else provides it. */
  predicate Forced(it: Item, env: Env)
    requires it.gone.Some?
  {
    it.gone.value.removepkg && it.made.None? && env.forceRemove
  }

  /** The path is to be deleted: it is there, it is as the package left it or deleted by
      force, and it is not a link that was changed. */
  predicate ToDelete(it: Item, env: Env) {
    && Touchable(it, env)
    && CheckOf(it, env) != Absent && (CheckOf(it, env) == Mismatch ==> Forced(it, env))
    && (it.gone.value.typ == Link && it.gone.value.removepkg && it.made.None? ==>
      env.forceRemove || env.link(it.file) == Some(it.gone.value.target))
  }

  /** It counts as deleted when a directory above it is examined. */
  predicate CountsDeleted(it: Item, env: Env) {
    ToDelete(it, env) || (Touchable(it, env) && CheckOf(it, env) == Absent)
  }

  lemma VisitExact(items: seq<Item>, i: nat, env: Env, st: Plan)
    requires i < |items| && (items[i].gone.Some? || items[i].made.Some?) && !st.failed
    ensures var it, r := items[i], Visit(items, i, env, st);
      !r.failed ==>
        && r.obsoletes == (if ToDelete(it, env) then Schedule(st, it).obsoletes else st.obsoletes)
        && r.deleted == (if CountsDeleted(it, env) then st.deleted + {it.file} else st.deleted)
  {
  }

  /** Item i, one of the first n, puts the path into the list of pkg. */
  ghost predicate Puts(items: seq<Item>, n: nat, env: Env, pkg: string, path: string, i: nat) {
    i < n <= |items| && items[i].file == path && ToDelete(items[i], env) && pkg == Remover(items[i])
  }

  ghost predicate Marks(items: seq<Item>, n: nat, env: Env, path: string, i: nat) {
    i < n <= |items| && items[i].file == path && CountsDeleted(items[i], env)
  }

  ghost predicate PutIn(items: seq<Item>, n: nat, env: Env, pkg: string, path: string) {
    exists i: nat :: Puts(items, n, env, pkg, path, i)
  }

  ghost predicate MarkedIn(items: seq<Item>, n: nat, env: Env, path: string) {
    exists i: nat :: Marks(items, n, env, path, i)
  }

  ghost predicate ExactUpTo(items: seq<Item>, n: nat, env: Env, st: Plan) {
    && (forall pkg, path :: path in ListOf(st.obsoletes, pkg) <==> PutIn(items, n, env, pkg, path))
    && (forall path :: path in st.deleted <==> MarkedIn(items, n, env, path))
  }

  lemma ExactNext(items: seq<Item>, n: nat, env: Env, st: Plan)
    requires n < |items| && (items[n].gone.Some? || items[n].made.Some?)
    requires !st.failed && !Visit(items, n, env, st).failed && ExactUpTo(items, n, env, st)
    ensures ExactUpTo(items, n + 1, env, Visit(items, n, env, st))
  {
    var it, r := items[n], Visit(items, n, env, st);
    VisitExact(items, n, env, st);
    forall pkg, path ensures path in ListOf(r.obsoletes, pkg) <==> PutIn(items, n + 1, env, pkg, path) {
      PutsNext(items, n, n + 1, env, pkg, path);
      assert path in ListOf(r.obsoletes, pkg)
        <==> path in ListOf(st.obsoletes, pkg) || Puts(items, n + 1, env, pkg, path, n);
    }
    forall path ensures path in r.deleted <==> MarkedIn(items, n + 1, env, path) {
      MarksNext(items, n, n + 1, env, path);
    }
  }

  lemma PutsNext(items: seq<Item>, n: nat, m: nat, env: Env, pkg: string, path: string)
    requires n < |items| && m == n + 1
    ensures PutIn(items, m, env, pkg, path) <==> PutIn(items, n, env, pkg, path) || Puts(items, m, env, pkg, path, n)
  {
    if i: nat :| Puts(items, n, env, pkg, path, i) {
      assert Puts(items, m, env, pkg, path, i);
    }
    if i: nat :| Puts(items, m, env, pkg, path, i) {
      assert i < n ==> Puts(items, n, env, pkg, path, i);
    }
  }

  lemma MarksNext(items: seq<Item>, n: nat, m: nat, env: Env, path: string)
    requires n < |items| && m == n + 1
    ensures MarkedIn(items, m, env, path) <==> MarkedIn(items, n, env, path) || Marks(items, m, env, path, n)
  {
    if i: nat :| Marks(items, n, env, path, i) {
      assert Marks(items, m, env, path, i);
    }
    if i: nat :| Marks(items, m, env, path, i) {
      assert i < n ==> Marks(items, n, env, path, i);
    }
  }

  /** When planning succeeds, a path is in the list of a package if and only if some item
      of that path is to be deleted and the package is its remover, and it counts as
      deleted if and only if it is to be deleted or is gone already. */
  lemma PlanExact(items: seq<Item>, env: Env)
    requires Owned(items) && !PlanUpTo(items, |items|, env).failed
    ensures ExactUpTo(items, |items|, env, PlanUpTo(items, |items|, env))
  {
    for n := 0 to |items|
      invariant ExactUpTo(items, n, env, PlanUpTo(items, n, env))
    {
      DeletedGrows(items, n, |items|, env);
      DeletedGrows(items, n + 1, |items|, env);
      ExactNext(items, n, env, PlanUpTo(items, n, env));
    }
  }

  /** With one item per path: an item's path is in its remover's list if and only if it
      is to be deleted. */
  lemma ScheduledIff(items: seq<Item>, env: Env, i: nat)
    requires Owned(items) && OnePerPath(items) && i < |items| && items[i].gone.Some?
    requires !PlanUpTo(items, |items|, env).failed
    ensures items[i].file in ListOf(PlanUpTo(items, |items|, env).obsoletes, Remover(items[i]))
      <==> ToDelete(items[i], env)
  {
    PlanExact(items, env);
    PutForOne(items, env, i);
  }

  lemma PutForOne(items: seq<Item>, env: Env, i: nat)
    requires OnePerPath(items) && i < |items| && items[i].gone.Some?
    ensures PutIn(items, |items|, env, Remover(items[i]), items[i].file) <==> ToDelete(items[i], env)
  {
    var p, f := Remover(items[i]), items[i].file;
    if j: nat :| Puts(items, |items|, env, p, f, j) {
      assert j == i;
    }
    if ToDelete(items[i], env) {
      assert Puts(items, |items|, env, p, f, i);
    }
  }

  /** Everything in a list comes before the directory that holds it. */
  lemma ContentsFirst(items: seq<Item>, env: Env, pkg: string, a: nat, b: nat)
    requires Owned(items) && OnePerPath(items) && LongestFirst(items)
    requires var o := PlanUpTo(items, |items|, env).obsoletes;
      pkg in o && a < |o[pkg]| && b < |o[pkg]| && Beneath(o[pkg][b], o[pkg][a])
    ensures a < b
  {
    PlanSound(items, |items|, env);
    var o := PlanUpTo(items, |items|, env).obsoletes;
    assert a != b;
    assert !Before(o[pkg][b], o[pkg][a]);
  }

  // ---------------------------------------------------------------------
  // Directories replaced by files
  // ---------------------------------------------------------------------

  lemma {:induction false} DeletedGrows(items: seq<Item>, m: nat, n: nat, env: Env)
    requires Owned(items) && m <= n <= |items|
    ensures PlanUpTo(items, m, env).deleted <= PlanUpTo(items, n, env).deleted
    ensures PlanUpTo(items, m, env).failed ==> PlanUpTo(items, n, env).failed
    decreases n
  {
    if m < n {
      DeletedGrows(items, m, n - 1, env);
      VisitHas(items, n - 1, env, PlanUpTo(items, n - 1, env));
    }
  }

  /** If planning did not fail, every collected path beneath a listed directory
      that a file or link replaces is marked as deleted, wherever it stands in the
      item array, although only the items before the directory were looked at. */
  lemma ReplacedDirectoryEmptied(items: seq<Item>, env: Env, d: nat, i: nat)
    requires Owned(items) && LongestFirst(items) && d < |items| && i < |items|
    requires !PlanUpTo(items, |items|, env).failed
    requires Replaced(items[d]) && items[d].file !in env.preserved && env.dir(items[d].file).Listed?
    requires Beneath(items[d].file, items[i].file)
    ensures items[i].file in PlanUpTo(items, |items|, env).deleted
  {
    DeletedGrows(items, d, |items|, env);
    DeletedGrows(items, d + 1, |items|, env);
    var st := PlanUpTo(items, d, env);
    assert i < d;
    assert CanDeleteDirectory(items, d, st.deleted, items[d].file, env.dir(items[d].file));
  }
}
