/** The repository index and its stage: adding packages and committing the stage
    (bin/xbps-rindex/index-add.c), and the view readers get (lib/repo.c). */
module RepoIndex {

  /** A package: its version text, the place of that version in the order of
      versions, the versions it reverts and its shared libraries. */
  datatype Pkg = Pkg(version: string, rank: int, reverts: seq<string>, provided: seq<string>, required: seq<string>)

  type Index = map<string, Pkg>

  /** What readers see: the index with the stage over it. */
  function View(index: Index, stage: Index): Index {
    index + stage
  }

  ghost function Provided(m: Index, names: set<string>): set<string> {
    set n, l | n in names && n in m && l in m[n].provided :: l
  }

  ghost function Required(m: Index, names: set<string>): set<string> {
    set n, l | n in names && n in m && l in m[n].required :: l
  }

  /** Libraries that the index provides, the merged index does not, and a name of the
      index requires after the merge. */
  ghost function Broken(index: Index, stage: Index): set<string> {
    var merged := View(index, stage);
    Required(merged, index.Keys) * Provided(index, index.Keys) - Provided(merged, merged.Keys)
  }

  /** What the four passes compute is what is broken. */
  lemma PassesFindBroken(index: Index, stage: Index)
    ensures Required(View(index, stage), index.Keys) * Provided(index, stage.Keys)
      - Provided(index, index.Keys - stage.Keys) - Provided(stage, stage.Keys) == Broken(index, stage)
  {
    var merged := View(index, stage);
    assert Provided(merged, merged.Keys) == Provided(index, index.Keys - stage.Keys) + Provided(stage, stage.Keys);
    assert Provided(index, index.Keys) == Provided(index, index.Keys - stage.Keys) + Provided(index, stage.Keys);
  }

  // ---------------------------------------------------------------------
  // Which package wins
  // ---------------------------------------------------------------------

  function Compare(a: Pkg, b: Pkg): int {
    if a.rank < b.rank then -1 else if a.rank > b.rank then 1 else 0
  }

  /** bin/xbps-rindex/index-add.c:237-260. */
  function Newer(cand: Pkg, cur: Pkg): bool {
    var cmp := Compare(cand, cur);
    var cmp' := if cmp < 0 && cur.version in cand.reverts then 1
      else if cmp > 0 && cand.version in cur.reverts then -1
      else cmp;
    cmp' > 0
  }

  /** A candidate takes the place of the present package: it has the greater version and
      is not reverted by it, or the smaller one and reverts it. */
  predicate Replaces(cand: Pkg, cur: Pkg) {
    || (cand.rank > cur.rank && cand.version !in cur.reverts)
    || (cand.rank < cur.rank && cur.version in cand.reverts)
  }

  lemma NewerReplaces(cand: Pkg, cur: Pkg)
    ensures Newer(cand, cur) <==> Replaces(cand, cur)
  {
  }

  /** Of two packages with different versions exactly one wins, also with reverts. */
  lemma NewerDecides(a: Pkg, b: Pkg)
    ensures a.rank != b.rank ==> (Newer(a, b) <==> !Newer(b, a))
    ensures a.rank == b.rank ==> !Newer(a, b) && !Newer(b, a)
    ensures b.version !in a.reverts && a.version !in b.reverts ==> (Newer(a, b) <==> a.rank > b.rank)
  {
  }

  datatype File = Unreadable | Foreign | BadName | Good(name: string, pkg: Pkg)

  /** Adding one file to the view. */
  function AddView(view: Index, f: File, force: bool): Index {
    if f.Good? && (f.name !in view || force || Newer(f.pkg, view[f.name])) then view[f.name := f.pkg] else view
  }

  function AddAll(view: Index, files: seq<File>, force: bool): Index {
    if files == [] then view
    else AddView(AddAll(view, files[..|files| - 1], force), files[|files| - 1], force)
  }

  predicate Reverts(view: Index, files: seq<File>) {
    || (exists n <- view.Keys :: view[n].reverts != [])
    || (exists f <- files :: f.Good? && f.pkg.reverts != [])
  }

  /** p was offered under the name n. */
  ghost predicate Offered(view: Index, files: seq<File>, n: string, p: Pkg) {
    (n in view && view[n] == p) || Good(n, p) in files
  }

  /** Without force and reverts, the view ends up with an offered package of the
      greatest version for every name, and with no other name. */
  lemma {:induction false} AddAllGreatest(view: Index, files: seq<File>, n: string)
    requires !Reverts(view, files)
    ensures var v := AddAll(view, files, false);
      && (n in v <==> exists p :: Offered(view, files, n, p))
      && (n in v ==> Offered(view, files, n, v[n]) && forall p :: Offered(view, files, n, p) ==> p.rank <= v[n].rank)
  {
    var v := AddAll(view, files, false);
    if files == [] {
      if n in view { assert Offered(view, files, n, view[n]); }
    } else {
      var k := |files| - 1;
      var before, f := files[..k], files[k];
      assert files == before + [f] && f in files;
      assert forall g <- before :: g in files;
      AddAllGreatest(view, before, n);
      var w := AddAll(view, before, false);
      assert forall p :: Offered(view, files, n, p) <==> Offered(view, before, n, p) || f == Good(n, p);
      if f.Good? && f.name == n {
        assert Offered(view, files, n, f.pkg);
        if n in w {
          assert Offered(view, before, n, w[n]);
          NewerDecides(f.pkg, w[n]);
        }
      } else {
        assert n in v <==> n in w;
      }
    }
  }

  /** p was offered under the name n at place k; 0 means that it was there. */
  ghost predicate OfferedAt(view: Index, files: seq<File>, n: string, p: Pkg, k: nat) {
    k <= |files| && if k == 0 then n in view && view[n] == p else files[k - 1] == Good(n, p)
  }

  /** It took the place of what was there, and nothing offered under that name afterwards
      takes its place. */
  ghost predicate Holds(view: Index, files: seq<File>, n: string, p: Pkg, k: nat)
    requires k <= |files|
  {
    && (k > 0 ==> var w := AddAll(view, files[..k - 1], false); n in w ==> Replaces(p, w[n]))
    && forall j :: k <= j < |files| && files[j].Good? && files[j].name == n ==> !Replaces(files[j].pkg, p)
  }

  /** With reverts too, though they make no order: what the view ends up with under a name
      was offered, took the place of what was there before, and keeps it against
      everything offered after it. */
  lemma {:induction false} AddAllWinner(view: Index, files: seq<File>, n: string) returns (k: nat)
    requires n in AddAll(view, files, false)
    ensures var p := AddAll(view, files, false)[n]; OfferedAt(view, files, n, p, k) && Holds(view, files, n, p, k)
    decreases |files|
  {
    if files == [] {
      k := 0;
    } else {
      var m := |files| - 1;
      var f, w := files[m], AddAll(view, files[..m], false);
      if f.Good? && f.name == n && (n !in w || Newer(f.pkg, w[n])) {
        k := |files|;
      } else {
        k := AddAllWinner(view, files[..m], n);
        assert forall j :: 0 <= j < m ==> files[..m][j] == files[j];
        assert k > 0 ==> files[..m][..k - 1] == files[..k - 1];
      }
    }
  }

  /** With force the last package offered under a name wins, whatever the versions. */
  lemma {:induction false} AddAllForced(view: Index, files: seq<File>, n: string, p: Pkg, k: nat)
    requires OfferedAt(view, files, n, p, k)
    requires forall j :: k <= j < |files| ==> !(files[j].Good? && files[j].name == n)
    ensures n in AddAll(view, files, true) && AddAll(view, files, true)[n] == p
    decreases |files|
  {
    var m := |files| - 1;
    if k <= m {
      assert forall j :: 0 <= j < m ==> files[..m][j] == files[j];
      AddAllForced(view, files[..m], n, p, k);
    }
  }
}
