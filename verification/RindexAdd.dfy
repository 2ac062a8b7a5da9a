/** bin/xbps-rindex/index-add.c as it runs: files are added to a copy of the stage, and
    the stage is merged into the index when that breaks no library user. */
module RindexAdd {
  import opened RepoIndex

  /** One package's "shlib-provides" recorded under its name (59-76). */
  method RecordOld(libs: map<string, string>, name: string, shlibs: seq<string>) returns (r: map<string, string>)
    ensures r.Keys == libs.Keys + set l <- shlibs
    ensures forall l <- r.Keys :: r[l] == if l in shlibs then name else libs[l]
  {
    r := libs;
    for i := 0 to |shlibs|
      invariant r.Keys == libs.Keys + set l <- shlibs[..i]
      invariant forall l <- r.Keys :: r[l] == if l in shlibs[..i] then name else libs[l]
    {
      r := r[shlibs[i] := name];
      assert shlibs[..i + 1] == shlibs[..i] + [shlibs[i]];
    }
    assert shlibs[..|shlibs|] == shlibs;
  }

  /** First pass: the libraries provided by the index packages that the stage replaces. */
  method FindOld(index: Index, stage: Index) returns (libs: map<string, string>)
    ensures libs.Keys == Provided(index, stage.Keys)
    ensures forall l <- libs.Keys :: libs[l] in index && libs[l] in stage && l in index[libs[l]].provided
  {
    libs := map[];
    var todo := stage.Keys;
    while todo != {}
      invariant todo <= stage.Keys
      invariant libs.Keys == Provided(index, stage.Keys - todo)
      invariant forall l <- libs.Keys :: libs[l] in index && libs[l] in stage && l in index[libs[l]].provided
      decreases todo
    {
      var name :| name in todo;
      ghost var done := stage.Keys - todo;
      todo := todo - {name};
      assert stage.Keys - todo == done + {name};
      if name in index {
        libs := RecordOld(libs, name, index[name].provided);
        assert Provided(index, done + {name}) == Provided(index, done) + set l <- index[name].provided;
      } else {
        assert Provided(index, done + {name}) == Provided(index, done);
      }
    }
    assert stage.Keys - {} == stage.Keys;
  }

  /** n is a user of l. */
  predicate Uses(m: Index, n: string, l: string) {
    n in m && l in m[n].required
  }

  /** The users recorded so far are the names among `done` that require the library. */
  ghost predicate UsersOk(m: Index, done: set<string>, libs: set<string>, used: map<string, seq<string>>) {
    && used.Keys == Required(m, done) * libs
    && forall l, n :: l in used ==> (n in used[l] <==> n in done && Uses(m, n, l))
  }

  /** One package's "shlib-requires" (91-106). */
  method RecordUser(used: map<string, seq<string>>, libs: set<string>, name: string, shlibs: seq<string>)
    returns (r: map<string, seq<string>>)
    ensures r.Keys == used.Keys + (set l <- shlibs) * libs
    ensures forall l, n :: l in r ==>
      (n in r[l] <==> (l in used && n in used[l]) || (l in shlibs && l in libs && n == name))
  {
    r := used;
    for i := 0 to |shlibs|
      invariant r.Keys == used.Keys + (set l <- shlibs[..i]) * libs
      invariant forall l, n :: l in r ==>
        (n in r[l] <==> (l in used && n in used[l]) || (l in shlibs[..i] && l in libs && n == name))
    {
      var l := shlibs[i];
      assert shlibs[..i + 1] == shlibs[..i] + [l];
      if l in libs {
        r := r[l := (if l in r then r[l] else []) + [name]];
      }
    }
    assert shlibs[..|shlibs|] == shlibs;
  }

  /** Second pass: those of them that the index needs after the merge, and by whom. */
  method FindUsed(index: Index, stage: Index, libs: set<string>) returns (used: map<string, seq<string>>)
    ensures UsersOk(View(index, stage), index.Keys, libs, used)
  {
    ghost var m := View(index, stage);
    used := map[];
    var todo := index.Keys;
    while todo != {}
      invariant todo <= index.Keys
      invariant UsersOk(m, index.Keys - todo, libs, used)
      decreases todo
    {
      var name :| name in todo;
      ghost var done := index.Keys - todo;
      todo := todo - {name};
      assert index.Keys - todo == done + {name};
      var pkg := if name in stage then stage[name] else index[name];
      assert m[name] == pkg;
      used := RecordUser(used, libs, name, pkg.required);
      assert Required(m, done + {name}) == Required(m, done) + set l <- pkg.required;
    }
    assert index.Keys - {} == index.Keys;
  }

  /** Third and fourth pass: forget the libraries that the packages among `names`
      provide. */
  method Purge(used: map<string, seq<string>>, m: Index, names: set<string>) returns (r: map<string, seq<string>>)
    requires names <= m.Keys
    ensures r == used - Provided(m, names)
  {
    r := used;
    var todo := names;
    while todo != {}
      invariant todo <= names
      invariant r == used - Provided(m, names - todo)
      decreases todo
    {
      var name :| name in todo;
      ghost var done := names - todo;
      todo := todo - {name};
      assert names - todo == done + {name};
      var shlibs := m[name].provided;
      ghost var r0 := r;
      for i := 0 to |shlibs|
        invariant r == r0 - set l <- shlibs[..i]
      {
        assert shlibs[..i + 1] == shlibs[..i] + [shlibs[i]];
        r := r - {shlibs[i]};
      }
      assert shlibs[..|shlibs|] == shlibs;
      assert Provided(m, done + {name}) == Provided(m, done) + set l <- shlibs;
    }
    assert names - {} == names;
  }

  /** bin/xbps-rindex/index-add.c:183-193 and lib/repo.c:455-490: copy the stage over
      the index. */
  method MergeStage(index: Index, stage: Index) returns (r: Index)
    ensures r == View(index, stage)
  {
    r := index;
    var todo := stage.Keys;
    while todo != {}
      invariant todo <= stage.Keys
      invariant r.Keys == index.Keys + (stage.Keys - todo)
      invariant forall n <- r.Keys :: r[n] == if n in stage && n !in todo then stage[n] else index[n]
      decreases todo
    {
      var name :| name in todo;
      todo := todo - {name};
      r := r[name := stage[name]];
    }
  }

  class Repodata {
    var index: Index
    var stage: Index

    constructor ()
      ensures index == map[] && stage == map[]
    {
      index, stage := map[], map[];
    }

    /** lib/repo.c:522-540: what xbps_repo_open shows. */
    method Open(remote: bool, useStage: bool) returns (idx: Index)
      ensures !remote || useStage ==> idx == View(index, stage)
      ensures remote && !useStage ==> idx == index
    {
      if stage == map[] || (remote && !useStage) {
        idx := index;
      } else {
        idx := MergeStage(index, stage);
      }
    }

    /** bin/xbps-rindex/index-add.c:42-193. The inconsistent libraries are printed with
        the package that provided them and those that use them. */
    method Commit(index0: Index, stage0: Index) returns (report: map<string, seq<string>>)
      modifies this
      ensures stage0 == map[] ==> index == old(index) && stage == old(stage) && report == map[]
      ensures stage0 != map[] ==> report.Keys == Broken(index0, stage0)
      ensures stage0 != map[] && Broken(index0, stage0) == {} ==> index == View(index0, stage0) && stage == map[]
      ensures stage0 != map[] && Broken(index0, stage0) != {} ==> index == index0 && stage == stage0
      ensures stage0 != map[] ==> View(index, stage) == View(index0, stage0)
      ensures forall l, n :: l in report ==> (n in report[l] <==> n in index0 && Uses(View(index0, stage0), n, l))
    {
      if stage0 == map[] {
        return map[];
      }
      var libs := FindOld(index0, stage0);
      var used := FindUsed(index0, stage0, libs.Keys);
      used := Purge(used, index0, index0.Keys - stage0.Keys);
      used := Purge(used, stage0, stage0.Keys);
      PassesFindBroken(index0, stage0);
      if used != map[] {
        index, stage := index0, stage0;
      } else {
        var merged := MergeStage(index0, stage0);
        index, stage := merged, map[];
      }
      return used;
    }

    /** bin/xbps-rindex/index-add.c:297-372: a bad file name aborts before anything is
        written; otherwise readers see the files added one after the other, whether or
        not the stage was merged. */
    method IndexAdd(files: seq<File>, force: bool) returns (ok: bool)
      modifies this
      ensures ok == (BadName !in files)
      ensures !ok ==> index == old(index) && stage == old(stage)
      ensures ok ==> View(index, stage) == AddAll(View(old(index), old(stage)), files, force)
    {
      var stage1 := stage;
      for i := 0 to |files|
        invariant BadName !in files[..i]
        invariant index == old(index) && stage == old(stage)
        invariant View(index, stage1) == AddAll(View(index, stage), files[..i], force)
        invariant stage1 == map[] ==> stage == map[]
      {
        var bad;
        ghost var v := View(index, stage1);
        assert files[..i + 1][..i] == files[..i];
        bad, stage1 := AddFile(index, stage1, files[i], force);
        if bad {
          assert files[i] == BadName;
          return false;
        }
        assert View(index, stage1) == AddView(v, files[i], force);
      }
      assert files[..|files|] == files;
      var report := Commit(index, stage1);
      return true;
    }
  }

  /** bin/xbps-rindex/index-add.c:196-294. The file goes to the stage exactly when its name
      is new, with force, or when it takes the place of what readers see. */
  method AddFile(index: Index, stage: Index, f: File, force: bool) returns (bad: bool, stage': Index)
    ensures bad == (f == BadName)
    ensures !f.Good? ==> stage' == stage
    ensures f.Good? ==> var cur := View(index, stage);
      stage' == if f.name !in cur || force || Replaces(f.pkg, cur[f.name]) then stage[f.name := f.pkg] else stage
    ensures View(index, stage') == AddView(View(index, stage), f, force)
    ensures stage' == map[] ==> stage == map[]
    ensures forall n :: n in stage' && (n !in stage || stage'[n] != stage[n]) ==> f == Good(n, stage'[n])
  {
    stage' := stage;
    match f {
      case Unreadable => return false, stage;
      case Foreign => return false, stage;
      case BadName => return true, stage;
      case Good(name, pkg) => {
        if !force {
          if name in stage && !Newer(pkg, stage[name]) {
            return false, stage;
          }
          if name !in stage && name in index && !Newer(pkg, index[name]) {
            return false, stage;
          }
        }
        return false, stage[name := pkg];
      }
    }
  }
}
