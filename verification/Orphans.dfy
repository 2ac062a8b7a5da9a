/** Orphaned packages: the reverse dependency index and the two searches over it. */
module Orphans {
  import opened Graph
  import opened Sequences
  import opened Wrappers
  import opened DepTreeSpec
  import opened DepTreeTheorems
  import opened FullDepTree

  type RevIndex = map<string, seq<string>>

  /** An installed package and the names in its run_depends patterns. */
  datatype Installed = Installed(name: string, rundeps: seq<string>)

  function Revs(rev: RevIndex, p: string): seq<string> {
    if p in rev then rev[p] else []
  }

  // ---------------------------------------------------------------------
  // The reverse index
  // ---------------------------------------------------------------------

  /** The package a dependency name stands for: the configured provider of a virtual
      package, or the name itself. */
  function Provider(vpkg: string -> Option<string>, name: string): string {
    match vpkg(name)
    case Some(v) => v
    case None => name
  }

  predicate DependsOn(p: Installed, vpkg: string -> Option<string>, v: string) {
    exists i :: 0 <= i < |p.rundeps| && Provider(vpkg, p.rundeps[i]) == v
  }

  /** Among the first k dependencies of p. */
  predicate DependsUpTo(p: Installed, vpkg: string -> Option<string>, v: string, k: nat) {
    exists i :: 0 <= i < |p.rundeps| && i < k && Provider(vpkg, p.rundeps[i]) == v
  }

  /** The package of this name depends on v. */
  predicate HasDependent(db: seq<Installed>, vpkg: string -> Option<string>, v: string, name: string) {
    exists i :: 0 <= i < |db| && db[i].name == name && DependsOn(db[i], vpkg, v)
  }

  predicate OneEach(db: seq<Installed>) {
    forall i, j :: 0 <= i < j < |db| ==> db[i].name != db[j].name
  }

  /** The i-th package has recorded its dependency on v by then. */
  predicate RecordedBy(p: Installed, vpkg: string -> Option<string>, n: nat, k: nat, v: string, i: nat) {
    if i < n then DependsOn(p, vpkg, v) else i == n && DependsUpTo(p, vpkg, v, k)
  }

  /** Reverse dependencies of v recorded after the first n packages and the first k
      dependencies of the next. */
  ghost predicate RevUpTo(db: seq<Installed>, vpkg: string -> Option<string>, n: nat, k: nat, v: string, name: string) {
    exists i :: 0 <= i < |db| && db[i].name == name && RecordedBy(db[i], vpkg, n, k, v, i)
  }

  ghost predicate Indexed(rev: RevIndex, db: seq<Installed>, vpkg: string -> Option<string>, n: nat, k: nat) {
    && (forall v :: v in rev ==> Distinct(rev[v]))
    && (forall v, name :: name in Revs(rev, v) <==> RevUpTo(db, vpkg, n, k, v, name))
  }

  lemma IndexedStep(rev: RevIndex, db: seq<Installed>, vpkg: string -> Option<string>, n: nat, k: nat, rev': RevIndex)
    requires OneEach(db) && n < |db| && k < |db[n].rundeps| && Indexed(rev, db, vpkg, n, k)
    requires var v := Provider(vpkg, db[n].rundeps[k]); var name := db[n].name;
      rev' == if name in Revs(rev, v) then rev else rev[v := Revs(rev, v) + [name]]
    ensures Indexed(rev', db, vpkg, n, k + 1)
  {
    var v0 := Provider(vpkg, db[n].rundeps[k]);
    forall v, name ensures name in Revs(rev', v) <==> RevUpTo(db, vpkg, n, k + 1, v, name) {
      assert name in Revs(rev', v) <==> name in Revs(rev, v) || (v == v0 && name == db[n].name);
      if RevUpTo(db, vpkg, n, k, v, name) {
        var i :| 0 <= i < |db| && db[i].name == name && RecordedBy(db[i], vpkg, n, k, v, i);
        assert i == n ==> DependsUpTo(db[i], vpkg, v, k + 1);
      }
      if v == v0 && name == db[n].name {
        assert DependsUpTo(db[n], vpkg, v, k + 1);
      }
      if RevUpTo(db, vpkg, n, k + 1, v, name) {
        var i :| 0 <= i < |db| && db[i].name == name && RecordedBy(db[i], vpkg, n, k + 1, v, i);
        if i == n && v != v0 {
          assert DependsUpTo(db[i], vpkg, v, k);
        }
      }
    }
  }

  lemma IndexedNext(rev: RevIndex, db: seq<Installed>, vpkg: string -> Option<string>, n: nat)
    requires n < |db| && Indexed(rev, db, vpkg, n, |db[n].rundeps|)
    ensures Indexed(rev, db, vpkg, n + 1, 0)
  {
    forall v, name ensures RevUpTo(db, vpkg, n, |db[n].rundeps|, v, name) <==> RevUpTo(db, vpkg, n + 1, 0, v, name) {
      assert DependsUpTo(db[n], vpkg, v, |db[n].rundeps|) <==> DependsOn(db[n], vpkg, v);
    }
  }

  /** Builds the reverse index of the package database; the cache of resolved names
      never changes what is recorded. */
  method GenerateRevdeps(db: seq<Installed>, vpkg: string -> Option<string>) returns (rev: RevIndex)
    requires OneEach(db)
    ensures forall v :: v in rev ==> Distinct(rev[v])
    ensures forall v, name :: name in Revs(rev, v) <==> HasDependent(db, vpkg, v, name)
  {
    rev := map[];
    var cache: map<string, string> := map[];
    var n := 0;
    while n < |db|
      invariant 0 <= n <= |db| && Indexed(rev, db, vpkg, n, 0)
      invariant forall c :: c in cache ==> cache[c] == Provider(vpkg, c)
    {
      var k := 0;
      while k < |db[n].rundeps|
        invariant 0 <= k <= |db[n].rundeps| && Indexed(rev, db, vpkg, n, k)
        invariant forall c :: c in cache ==> cache[c] == Provider(vpkg, c)
      {
        var name := db[n].rundeps[k];
        if name !in cache {
          cache := cache[name := Provider(vpkg, name)];
        }
        var v := cache[name];
        ghost var before := rev;
        if db[n].name !in Revs(rev, v) {
          rev := rev[v := Revs(rev, v) + [db[n].name]];
        }
        IndexedStep(before, db, vpkg, n, k, rev);
        k := k + 1;
      }
      IndexedNext(rev, db, vpkg, n);
      n := n + 1;
    }
    forall v, name ensures RevUpTo(db, vpkg, n, 0, v, name) <==> HasDependent(db, vpkg, v, name) {
    }
  }

  // ---------------------------------------------------------------------
  // Automatic mode
  // ---------------------------------------------------------------------

  /** Every automatic package whose reverse dependencies are all in s is in s. */
  ghost predicate OrphanClosed(names: seq<string>, auto: set<string>, rev: RevIndex, s: set<string>) {
    forall p :: p in names && p in auto && Elements(Revs(rev, p)) <= s ==> p in s
  }

  /** Counts, as the program does, whether all reverse dependencies are in a. */
  method AllSeen(a: seq<string>, revs: seq<string>) returns (all: bool)
    ensures all <==> Elements(revs) <= Elements(a)
  {
    var cnt, i := 0, 0;
    while i < |revs|
      invariant 0 <= i <= |revs| && 0 <= cnt <= i
      invariant cnt == i <==> forall j :: 0 <= j < i ==> revs[j] in a
    {
      if revs[i] in a {
        cnt := cnt + 1;
      }
      i := i + 1;
    }
    all := cnt == |revs|;
    if all {
      assert forall x :: x in revs ==> x in a;
    } else {
      var j :| 0 <= j < |revs| && revs[j] !in a;
      assert revs[j] in Elements(revs);
    }
  }

  /** Orphans found so far: automatic, without repetition, needed only by each
      other, and part of every closed set. */
  ghost predicate OrphansOk(names: seq<string>, auto: set<string>, rev: RevIndex, a: seq<string>) {
    && Distinct(a)
    && (forall p :: p in a ==> p in names && p in auto && Elements(Revs(rev, p)) <= Elements(a))
    && (forall s: set<string> :: OrphanClosed(names, auto, rev, s) ==> Elements(a) <= s)
  }

  lemma OrphansGrow(names: seq<string>, auto: set<string>, rev: RevIndex, a: seq<string>, p: string)
    requires OrphansOk(names, auto, rev, a) && p in names && p in auto && p !in a
    requires Elements(Revs(rev, p)) <= Elements(a)
    ensures OrphansOk(names, auto, rev, a + [p])
  {
    assert Elements(a + [p]) == Elements(a) + {p};
    forall s: set<string> | OrphanClosed(names, auto, rev, s) ensures Elements(a + [p]) <= s {
      assert Elements(a) <= s;
    }
  }

  /** One pass over the package database. */
  method OrphanPass(names: seq<string>, auto: set<string>, rev: RevIndex, before: seq<string>)
    returns (a: seq<string>, added: bool)
    requires OrphansOk(names, auto, rev, before)
    ensures OrphansOk(names, auto, rev, a) && |before| <= |a| && (added <==> a != before) && (added ==> |a| > |before|)
    ensures !added ==> OrphanClosed(names, auto, rev, Elements(a))
  {
    a, added := before, false;
    var i := 0;
    while i < |names|
      invariant 0 <= i <= |names| && OrphansOk(names, auto, rev, a)
      invariant |before| <= |a| && (added ==> |a| > |before|) && (!added ==> a == before)
      invariant !added ==> forall j :: 0 <= j < i ==>
        (names[j] in auto && Elements(Revs(rev, names[j])) <= Elements(a) ==> names[j] in a)
    {
      var p := names[i];
      if p in auto && p !in a {
        var all := AllSeen(a, Revs(rev, p));
        if all {
          OrphansGrow(names, auto, rev, a, p);
          a := a + [p];
          added := true;
        }
      }
      i := i + 1;
    }
    if !added {
      forall p | p in names && p in auto && Elements(Revs(rev, p)) <= Elements(a) ensures p in Elements(a) {
        var j :| 0 <= j < |names| && names[j] == p;
      }
    }
  }

  /** The automatic search returns, without repetition, the least set of automatic
      packages that holds every automatic package needed only by its members;
      members are needed only by members. */
  method FindOrphans(names: seq<string>, auto: set<string>, rev: RevIndex) returns (a: seq<string>)
    ensures Distinct(a)
    ensures OrphanClosed(names, auto, rev, Elements(a))
    ensures forall s: set<string> :: OrphanClosed(names, auto, rev, s) ==> Elements(a) <= s
    ensures forall p :: p in a ==> p in names && p in auto && Elements(Revs(rev, p)) <= Elements(a)
  {
    a := [];
    var added := true;
    while added
      invariant OrphansOk(names, auto, rev, a)
      invariant !added ==> OrphanClosed(names, auto, rev, Elements(a))
      decreases |Elements(names)| - |a|, added
    {
      DistinctWithin(a, Elements(names));
      a, added := OrphanPass(names, auto, rev, a);
      DistinctWithin(a, Elements(names));
    }
  }

  /** After the orphans are removed, no surviving package has a dependency that the
      reverse index maps to a removed one. */
  lemma RemovalBreaksNothing(db: seq<Installed>, vpkg: string -> Option<string>, rev: RevIndex, a: seq<string>,
    i: nat, d: nat)
    requires forall v, name :: name in Revs(rev, v) <==> HasDependent(db, vpkg, v, name)
    requires forall p :: p in a ==> Elements(Revs(rev, p)) <= Elements(a)
    requires i < |db| && db[i].name !in a && d < |db[i].rundeps|
    ensures Provider(vpkg, db[i].rundeps[d]) !in a
  {
    var v := Provider(vpkg, db[i].rundeps[d]);
    assert DependsOn(db[i], vpkg, v);
    assert db[i].name in Revs(rev, v);
    assert db[i].name in Elements(Revs(rev, v));
  }

  // ---------------------------------------------------------------------
  // Recursive removal mode
  // ---------------------------------------------------------------------

  /** d is in the dependency tree of m, as the search finds it. */
  ghost predicate InTree(db: Db, m: string, d: string)
    requires Resolved(db)
  {
    m in db.deps && d in Tree(db, m).seen
  }

  /** Every reverse dependency that the index records is one that the search follows. */
  ghost predicate Agree(db: Db, rev: RevIndex)
    requires Resolved(db)
  {
    forall d, r :: r in Revs(rev, d) ==> InTree(db, r, d)
  }

  /** d is in the dependency tree of some member of s. */
  ghost predicate Under(db: Db, s: set<string>, d: string)
    requires Resolved(db)
  {
    exists m :: m in s && m != d && InTree(db, m, d)
  }

  /** s holds every automatic package that is in the tree of a member and needed
      only by members. */
  ghost predicate RemovalClosed(db: Db, auto: set<string>, rev: RevIndex, s: set<string>)
    requires Resolved(db)
  {
    forall d :: d in auto && Under(db, s, d) && Elements(Revs(rev, d)) <= s ==> d in s
  }

  ghost predicate Removable(db: Db, auto: set<string>, rev: RevIndex, user: set<string>, a: seq<string>)
    requires Resolved(db)
  {
    && user <= Elements(a) <= db.deps.Keys
    && (forall s: set<string> :: user <= s && RemovalClosed(db, auto, rev, s) ==> Elements(a) <= s)
  }

  lemma RemovableGrows(db: Db, auto: set<string>, rev: RevIndex, user: set<string>, a: seq<string>, m: string,
    d: string)
    requires Resolved(db) && Removable(db, auto, rev, user, a) && d in db.deps && d in auto
    requires m in a && m != d && InTree(db, m, d) && Elements(Revs(rev, d)) <= Elements(a)
    ensures Removable(db, auto, rev, user, a + [d])
  {
    assert Elements(a + [d]) == Elements(a) + {d};
    forall s: set<string> | user <= s && RemovalClosed(db, auto, rev, s) ensures Elements(a + [d]) <= s {
      assert Elements(a) <= s;
      assert m in Elements(a);
      assert Under(db, s, d);
    }
  }

  /** After position k was processed: whatever was left out of its tree still had a
      reverse dependency beyond that position. */
  ghost predicate LeftOut(db: Db, auto: set<string>, rev: RevIndex, a: seq<string>, k: nat, d: string)
    requires Resolved(db) && k < |a|
  {
    InTree(db, a[k], d) && d in auto && d !in a ==> !(Elements(Revs(rev, d)) <= Elements(a[..k + 1]))
  }

  ghost predicate Processed(db: Db, auto: set<string>, rev: RevIndex, a: seq<string>, k: nat)
    requires Resolved(db) && k < |a|
  {
    forall d :: LeftOut(db, auto, rev, a, k, d)
  }

  /** The last of the given packages to stand in a. */
  lemma {:induction false} Furthest(a: seq<string>, revs: seq<string>) returns (j: nat)
    requires revs != [] && Elements(revs) <= Elements(a)
    ensures j < |a| && a[j] in revs && Elements(revs) <= Elements(a[..j + 1])
    decreases |revs|
  {
    var r := revs[|revs| - 1];
    assert r in Elements(revs);
    var i: nat :| i < |a| && a[i] == r;
    assert a[..i + 1][i] == r;
    if |revs| == 1 {
      assert Elements(revs) == {r};
      j := i;
    } else {
      var front := revs[..|revs| - 1];
      assert revs == front + [r];
      assert Elements(revs) == Elements(front) + {r};
      var k := Furthest(a, front);
      j := if i < k then k else i;
      assert Elements(a[..k + 1]) <= Elements(a[..j + 1]) by {
        assert a[..j + 1] == a[..k + 1] + a[k + 1..j + 1];
      }
      assert Elements(a[..i + 1]) <= Elements(a[..j + 1]) by {
        assert a[..j + 1] == a[..i + 1] + a[i + 1..j + 1];
      }
    }
  }

  /** One pass over the growing array is enough: a package left out when its
      dependents were not all present is looked at again in the tree of the last
      dependent to arrive. */
  lemma OnePassSuffices(db: Db, auto: set<string>, rev: RevIndex, a: seq<string>)
    requires Resolved(db) && Agree(db, rev) && Elements(a) <= db.deps.Keys
    requires forall k :: 0 <= k < |a| ==> Processed(db, auto, rev, a, k)
    ensures RemovalClosed(db, auto, rev, Elements(a))
  {
    forall d | d in auto && Under(db, Elements(a), d) && Elements(Revs(rev, d)) <= Elements(a)
      ensures d in Elements(a)
    {
      var j: nat;
      if Revs(rev, d) == [] {
        var m :| m in Elements(a) && m != d && InTree(db, m, d);
        j :| j < |a| && a[j] == m;
      } else {
        j := Furthest(a, Revs(rev, d));
      }
      assert InTree(db, a[j], d);
      assert Processed(db, auto, rev, a, j);
      assert LeftOut(db, auto, rev, a, j, d);
    }
  }

  /** When the reverse index is the reverse of the dependency relation and names agree,
      the tree of a package is what it reaches, and the index agrees with the search. */
  lemma RelationsAgree(db: Db, rev: RevIndex)
    requires Resolved(db) && forall m :: m in db.deps ==> CoveredByNames(db, m)
    requires forall d, r :: r in Revs(rev, d) <==> r in db.deps && d in NeedGraph(db)[r]
    ensures Agree(db, rev)
    ensures forall m, d :: m in db.deps ==> (InTree(db, m, d) <==> Reaches(NeedGraph(db), m, d))
  {
    var g := NeedGraph(db);
    forall m, d | m in db.deps ensures InTree(db, m, d) <==> Reaches(g, m, d) {
      TreeComplete(db, m);
    }
    forall d, r | r in Revs(rev, d) ensures InTree(db, r, d) {
      ReachesSelf(g, d);
      ReachesEdge(g, r, d, d);
    }
  }

  /** Looks through the dependency tree of a[i]. */
  method ScanTree(db: Db, auto: set<string>, rev: RevIndex, ghost user: set<string>, before: seq<string>, i: nat)
    returns (a: seq<string>)
    requires Resolved(db) && i < |before|
    requires Removable(db, auto, rev, user, before)
    ensures before <= a && Removable(db, auto, rev, user, a)
    ensures Processed(db, auto, rev, a, i)
    ensures a != before ==> Elements(before) < Elements(a)
  {
    a := before;
    assert before[i] in Elements(before);
    var tree := GetFullDepTree(db, false, before[i]);
    var rdeps := tree.value;
    var x := 0;
    while x < |rdeps|
      invariant 0 <= x <= |rdeps| && before <= a && Removable(db, auto, rev, user, a)
      invariant a != before ==> Elements(before) < Elements(a)
      invariant forall y :: 0 <= y < x ==> LeftOut(db, auto, rev, a, i, rdeps[y])
    {
      ghost var mid := a;
      assert rdeps[x] in Elements(rdeps);
      a := ScanOne(db, auto, rev, user, a, i, rdeps[x]);
      forall y | 0 <= y < x ensures LeftOut(db, auto, rev, a, i, rdeps[y]) {
        assert LeftOut(db, auto, rev, mid, i, rdeps[y]);
        assert a[..i + 1] == mid[..i + 1];
      }
      x := x + 1;
    }
    forall d ensures LeftOut(db, auto, rev, a, i, d) {
      if InTree(db, a[i], d) && d !in a {
        assert d in Elements(rdeps) + {a[i]};
        var y :| 0 <= y < |rdeps| && rdeps[y] == d;
      }
    }
  }

  /** Adds d, which is in the tree of a[i], if all its reverse dependencies are there. */
  method ScanOne(db: Db, auto: set<string>, rev: RevIndex, ghost user: set<string>, before: seq<string>, i: nat,
    d: string) returns (a: seq<string>)
    requires Resolved(db) && i < |before| && InTree(db, before[i], d)
    requires Removable(db, auto, rev, user, before)
    ensures before <= a && Removable(db, auto, rev, user, a) && LeftOut(db, auto, rev, a, i, d)
    ensures a != before ==> Elements(before) < Elements(a)
  {
    a := before;
    if d !in a && d in auto {
      var all := AllSeen(a, Revs(rev, d));
      PrefixMembers(a, i + 1);
      if all {
        assert a[i] in a;
        RemovableGrows(db, auto, rev, user, a, a[i], d);
        assert Elements(a + [d]) == Elements(a) + {d};
        a := a + [d];
      }
    }
  }

  lemma PrefixMembers(a: seq<string>, n: nat)
    requires n <= |a|
    ensures Elements(a[..n]) <= Elements(a)
  {
    assert a == a[..n] + a[n..];
  }

  /** The named packages that are installed. */
  method InstalledOf(db: Db, named: seq<string>) returns (a: seq<string>)
    ensures Elements(a) == Elements(named) * db.deps.Keys
  {
    a := [];
    var i := 0;
    while i < |named|
      invariant 0 <= i <= |named| && Elements(a) == Elements(named[..i]) * db.deps.Keys
    {
      assert named[..i + 1] == named[..i] + [named[i]];
      if named[i] in db.deps {
        assert Elements(a + [named[i]]) == Elements(a) + {named[i]};
        a := a + [named[i]];
      }
      i := i + 1;
    }
    assert named[..i] == named;
  }

  /** Recursive removal adds only what every closed superset of the installed packages
      the user named must hold, and when the index agrees with the search the result is
      closed: it is the least superset that holds every automatic package in a member's
      dependency tree whose reverse dependencies are all members. */
  method FindRecursiveOrphans(db: Db, auto: set<string>, rev: RevIndex, named: seq<string>) returns (a: seq<string>)
    requires Resolved(db)
    ensures Elements(named) * db.deps.Keys <= Elements(a) <= db.deps.Keys
    ensures forall s: set<string> ::
      Elements(named) * db.deps.Keys <= s && RemovalClosed(db, auto, rev, s) ==> Elements(a) <= s
    ensures Agree(db, rev) ==> RemovalClosed(db, auto, rev, Elements(a))
  {
    a := InstalledOf(db, named);
    ghost var user := Elements(a);
    a := ScanAll(db, auto, rev, user, a);
    if Agree(db, rev) {
      OnePassSuffices(db, auto, rev, a);
    }
  }

  ghost predicate AllProcessed(db: Db, auto: set<string>, rev: RevIndex, a: seq<string>, n: nat)
    requires Resolved(db) && n <= |a|
  {
    forall k :: 0 <= k < n ==> Processed(db, auto, rev, a, k)
  }

  /** The single pass over the growing array. */
  method ScanAll(db: Db, auto: set<string>, rev: RevIndex, ghost user: set<string>, start: seq<string>)
    returns (a: seq<string>)
    requires Resolved(db)
    requires Removable(db, auto, rev, user, start)
    ensures Removable(db, auto, rev, user, a) && AllProcessed(db, auto, rev, a, |a|)
  {
    a := start;
    var i := 0;
    while i < |a|
      invariant 0 <= i <= |a| && Removable(db, auto, rev, user, a) && AllProcessed(db, auto, rev, a, i)
      decreases db.deps.Keys - Elements(a), |a| - i
    {
      ghost var before := a;
      a := ScanTree(db, auto, rev, user, a, i);
      StayProcessed(db, auto, rev, before, a, i);
      Shrinks(db.deps.Keys, Elements(before), Elements(a));
      i := i + 1;
    }
  }

  lemma Shrinks(all: set<string>, s: set<string>, t: set<string>)
    requires s <= t <= all
    ensures s < t ==> all - t < all - s
    ensures s == t ==> all - t == all - s
  {
    if x :| x in t - s {
      assert x in all - s;
    }
  }

  lemma StayProcessed(db: Db, auto: set<string>, rev: RevIndex, before: seq<string>, a: seq<string>, n: nat)
    requires Resolved(db) && before <= a && n <= |before| && AllProcessed(db, auto, rev, before, n)
    ensures AllProcessed(db, auto, rev, a, n)
  {
    forall k | 0 <= k < n ensures Processed(db, auto, rev, a, k) {
      StaysProcessed(db, auto, rev, before, a, k);
    }
  }

  lemma StaysProcessed(db: Db, auto: set<string>, rev: RevIndex, before: seq<string>, a: seq<string>, k: nat)
    requires Resolved(db) && before <= a && k < |before| && Processed(db, auto, rev, before, k)
    ensures Processed(db, auto, rev, a, k)
  {
    assert a[..k + 1] == before[..k + 1];
    forall d ensures LeftOut(db, auto, rev, a, k, d) {
      assert LeftOut(db, auto, rev, before, k, d);
    }
  }
}
