/** What the search finds: always a part of what the root reaches, all of it when names
    and resolutions agree, and in dependency order when there is no cycle. */
module DepTreeTheorems {
  import opened Graph
  import opened Sequences
  import opened Wrappers
  import opened DepTreeSpec

  // ---------------------------------------------------------------------
  // For every dependency relation
  // ---------------------------------------------------------------------

  /** Whatever the relation, cyclic or not: nothing is listed twice, everything visited
      but possibly the root is listed, and it is reached from the root. */
  lemma TreeSound(db: Db, root: string)
    requires Resolved(db) && root in db.deps
    ensures var t := Tree(db, root);
      && Distinct(t.list) && Elements(t.list) + {root} == t.seen
      && forall x :: x in t.seen ==> Reaches(NeedGraph(db), root, x)
  {
    var st := Found({}, []);
    VisitListOk(db, st, root, 0);
    VisitLists(db, st, root, 0);
    VisitReach(db, st, root, 0);
  }

  /** A step from a visited package was taken. */
  ghost predicate Kept(db: Db, seen: set<string>, x: string, i: nat)
    requires Resolved(db) && x in db.deps && i < |db.deps[x]|
  {
    Follows(db, x, db.deps[x][i]) ==> db.deps[x][i].target.value in seen
  }

  /** A package that the root reaches is missed only because a visited package has a
      dependency resolved to another package than the one of its name, which was
      visited already. */
  lemma LostByName(db: Db, root: string, y: string) returns (x: string, i: nat)
    requires Resolved(db) && root in db.deps
    requires Reaches(NeedGraph(db), root, y) && y !in Tree(db, root).seen
    ensures x in Tree(db, root).seen && i < |db.deps[x]| && Follows(db, x, db.deps[x][i])
    ensures db.deps[x][i].target.value !in Tree(db, root).seen && db.deps[x][i].name in Tree(db, root).seen
  {
    var seen, g := Tree(db, root).seen, NeedGraph(db);
    VisitLeads(db, Found({}, []), root, 0);
    var p :| IsWalk(g, p) && p[0] == root && p[|p| - 1] == y;
    var n := 0;
    while p[n + 1] in seen
      invariant 0 <= n < |p| - 1 && p[n] in seen
      decreases |p| - n
    {
      n := n + 1;
    }
    x := p[n];
    assert p[n + 1] in g[x];
    i :| 0 <= i < |db.deps[x]| && Follows(db, x, db.deps[x][i]) && db.deps[x][i].target.value == p[n + 1];
    assert AllLed(db, seen, x);
    assert Led(db, seen, x, i);
  }

  // ---------------------------------------------------------------------
  // When names agree
  // ---------------------------------------------------------------------

  ghost predicate NameAgrees(db: Db, root: string, p: string, i: nat)
    requires Resolved(db) && p in db.deps && i < |db.deps[p]|
  {
    var d := db.deps[p][i];
    Follows(db, p, d) ==> d.name == d.target.value || !Reaches(NeedGraph(db), root, d.name)
  }

  /** The dependencies whose names agree. */
  ghost function AgreeingNeeds(db: Db, root: string, p: string): set<string>
    requires Resolved(db) && p in db.deps
  {
    set i: nat | i < |db.deps[p]| && Follows(db, p, db.deps[p][i]) && NameAgrees(db, root, p, i)
      :: db.deps[p][i].target.value
  }

  ghost function AgreeingGraph(db: Db, root: string): Digraph<string>
    requires Resolved(db)
  {
    map p | p in db.deps :: AgreeingNeeds(db, root, p)
  }

  /** For every relation: what the root reaches along dependencies whose names agree is
      visited, whatever other dependencies there are. */
  lemma AgreeingVisited(db: Db, root: string, y: string)
    requires Resolved(db) && root in db.deps && Reaches(AgreeingGraph(db, root), root, y)
    ensures y in Tree(db, root).seen
  {
    var seen, g := Tree(db, root).seen, AgreeingGraph(db, root);
    TreeSound(db, root);
    VisitLeads(db, Found({}, []), root, 0);
    var p :| IsWalk(g, p) && p[0] == root && p[|p| - 1] == y;
    for n := 0 to |p| - 1
      invariant p[n] in seen
    {
      var x := p[n];
      assert p[n + 1] in g[x];
      var i: nat :| i < |db.deps[x]| && Follows(db, x, db.deps[x][i]) && NameAgrees(db, root, x, i)
        && db.deps[x][i].target.value == p[n + 1];
      assert AllLed(db, seen, x);
      assert Led(db, seen, x, i);
    }
  }

  /** Whatever the root reaches, it reaches along dependencies whose names agree. */
  ghost predicate CoveredByNames(db: Db, root: string)
    requires Resolved(db)
  {
    forall y :: Reaches(NeedGraph(db), root, y) ==> Reaches(AgreeingGraph(db, root), root, y)
  }

  /** Then the search visits exactly what the root reaches. */
  lemma TreeComplete(db: Db, root: string)
    requires Resolved(db) && root in db.deps && CoveredByNames(db, root)
    ensures forall x :: x in Tree(db, root).seen <==> Reaches(NeedGraph(db), root, x)
  {
    TreeSound(db, root);
    forall y | Reaches(NeedGraph(db), root, y) ensures y in Tree(db, root).seen {
      AgreeingVisited(db, root, y);
    }
  }

  /** Among what the root reaches, the name in a pattern is that of the package it
      resolves to, or of no reached package. */
  ghost predicate NamesAgree(db: Db, root: string)
    requires Resolved(db)
  {
    forall p, i: nat :: p in db.deps && Reaches(NeedGraph(db), root, p) && i < |db.deps[p]| ==>
      NameAgrees(db, root, p, i)
  }

  /** If all names agree, the dependencies whose names agree are all there are. */
  lemma NamesAgreeCovers(db: Db, root: string)
    requires Resolved(db) && root in db.deps && NamesAgree(db, root)
    ensures CoveredByNames(db, root)
  {
    var g, h := NeedGraph(db), AgreeingGraph(db, root);
    forall y | Reaches(g, root, y) ensures Reaches(h, root, y) {
      var p :| IsWalk(g, p) && p[0] == root && p[|p| - 1] == y;
      ReachesSelf(g, root);
      ReachesSelf(h, root);
      for n := 0 to |p| - 1
        invariant Reaches(g, root, p[n]) && Reaches(h, root, p[n])
      {
        AgreeingEdge(db, root, p[n], p[n + 1]);
        ReachesStep(g, root, p[n], p[n + 1]);
        ReachesStep(h, root, p[n], p[n + 1]);
      }
    }
  }

  lemma AgreeingEdge(db: Db, root: string, p: string, q: string)
    requires Resolved(db) && NamesAgree(db, root) && Reaches(NeedGraph(db), root, p)
    requires p in NeedGraph(db) && q in NeedGraph(db)[p]
    ensures q in AgreeingGraph(db, root)[p]
  {
    var i: nat :| i < |db.deps[p]| && Follows(db, p, db.deps[p][i]) && db.deps[p][i].target.value == q;
    assert NameAgrees(db, root, p, i);
  }

  /** Everything an entry needs comes after it. */
  ghost predicate Ordered(g: Digraph<string>, q: seq<string>) {
    forall i, y :: 0 <= i < |q| && q[i] in g && y in g[q[i]] ==> y in q[i + 1..]
  }

  lemma OrderedPrepend(g: Digraph<string>, q: seq<string>, p: string)
    requires Ordered(g, q) && p in g && g[p] <= Elements(q)
    ensures Ordered(g, [p] + q)
  {
    var r := [p] + q;
    forall i, y | 0 <= i < |r| && r[i] in g && y in g[r[i]] ensures y in r[i + 1..] {
      if i == 0 {
        assert r[1..] == q;
      } else {
        assert r[i] == q[i - 1] && r[i + 1..] == q[i - 1 + 1..];
      }
    }
  }

  /** No cycle, names that agree, and a search that began at the root. */
  ghost predicate Tidy(db: Db, root: string)
    requires Resolved(db)
  {
    Acyclic(NeedGraph(db)) && NamesAgree(db, root)
  }

  /** The list is in order; what is visited is reached from the root, and what is not
      listed yet is on the way to p. */
  ghost predicate OnTheWay(db: Db, st: Found, p: string, root: string)
    requires Resolved(db)
  {
    && st.seen <= db.deps.Keys && Ordered(NeedGraph(db), st.list)
    && (forall x :: x in st.seen ==> Reaches(NeedGraph(db), root, x))
    && (forall x :: x in st.seen && x !in st.list ==> Reaches(NeedGraph(db), x, p))
  }

  ghost predicate StillUnlisted(st: Found, r: Found) {
    forall x :: x in st.seen && x !in st.list ==> x !in r.list
  }

  /** What p needs and has met is listed already. */
  lemma MetIsListed(db: Db, st: Found, p: string, q: string, root: string)
    requires Resolved(db) && Tidy(db, root) && OnTheWay(db, st, p, root) && p in db.deps
    requires q in NeedGraph(db)[p] && q in st.seen
    ensures q in st.list
  {
  }

  lemma {:induction false} VisitOrdered(db: Db, st: Found, p: string, depth: nat, root: string)
    requires Resolved(db) && Tidy(db, root) && p in db.deps && Reaches(NeedGraph(db), root, p)
    requires OnTheWay(db, st, p, root) && p !in st.seen && depth > 0 && ListOk(st)
    ensures var r := Visit(db, st, p, depth);
      Ordered(NeedGraph(db), r.list) && StillUnlisted(st, r)
    decreases |db.deps.Keys - st.seen|, 0, 0
  {
    var g, st1 := NeedGraph(db), st.(seen := st.seen + {p});
    assert db.deps.Keys - st1.seen == (db.deps.Keys - st.seen) - {p};
    ReachesSelf(g, p);
    FollowOrdered(db, st1, p, 0, depth, root);
    var r := Follow(db, st1, p, 0, depth);
    NeedsListed(db, r, p);
    OrderedPrepend(g, r.list, p);
  }

  lemma NeedsListed(db: Db, r: Found, p: string)
    requires Resolved(db) && p in db.deps && forall j: nat :: j < |db.deps[p]| ==> Kept(db, Elements(r.list), p, j)
    ensures NeedGraph(db)[p] <= Elements(r.list)
  {
    forall y | y in NeedGraph(db)[p] ensures y in r.list {
      var j: nat :| j < |db.deps[p]| && Follows(db, p, db.deps[p][j]) && db.deps[p][j].target.value == y;
      assert Kept(db, Elements(r.list), p, j);
    }
  }

  lemma {:induction false} FollowOrdered(db: Db, st: Found, p: string, i: nat, depth: nat, root: string)
    requires Resolved(db) && Tidy(db, root) && p in db.deps && Reaches(NeedGraph(db), root, p)
    requires OnTheWay(db, st, p, root) && p in st.seen && p !in st.list && i <= |db.deps[p]| && ListOk(st)
    requires forall j: nat :: j < i ==> Kept(db, Elements(st.list), p, j)
    ensures Finished(db, st, p, Follow(db, st, p, i, depth))
    decreases |db.deps.Keys - st.seen|, 1, |db.deps[p]| - i
  {
    if i < |db.deps[p]| {
      var r := Step(db, st, p, i, depth);
      StepOrdered(db, st, p, i, depth, root);
      Smaller(db.deps.Keys, st.seen, r.seen);
      FollowOrdered(db, r, p, i + 1, depth, root);
      FinishedEarlier(db, st, r, p, Follow(db, r, p, i + 1, depth));
    }
  }

  /** All dependencies of p were followed: the list is in order and holds them, and what
      was unlisted, p included, still is. */
  ghost predicate Finished(db: Db, st: Found, p: string, r: Found)
    requires Resolved(db) && p in db.deps
  {
    && Ordered(NeedGraph(db), r.list) && StillUnlisted(st, r) && p !in r.list
    && forall j: nat :: j < |db.deps[p]| ==> Kept(db, Elements(r.list), p, j)
  }

  lemma FinishedEarlier(db: Db, st: Found, m: Found, p: string, r: Found)
    requires Resolved(db) && p in db.deps && st.seen <= m.seen && StillUnlisted(st, m) && Finished(db, m, p, r)
    ensures Finished(db, st, p, r)
  {
  }

  /** One dependency: met already and listed, or visited and listed now. */
  lemma {:induction false} StepOrdered(db: Db, st: Found, p: string, i: nat, depth: nat, root: string)
    requires Resolved(db) && Tidy(db, root) && p in db.deps && Reaches(NeedGraph(db), root, p)
    requires OnTheWay(db, st, p, root) && p in st.seen && p !in st.list && i < |db.deps[p]| && ListOk(st)
    requires forall j: nat :: j < i ==> Kept(db, Elements(st.list), p, j)
    ensures var r := Step(db, st, p, i, depth);
      && OnTheWay(db, r, p, root) && StillUnlisted(st, r) && ListOk(r) && p !in r.list
      && forall j: nat :: j < i + 1 ==> Kept(db, Elements(r.list), p, j)
    decreases |db.deps.Keys - st.seen|, 1, 0
  {
    var g, d := NeedGraph(db), db.deps[p][i];
    if Follows(db, p, d) {
      var q := d.target.value;
      assert q in g[p];
      ReachesSelf(g, q);
      ReachesEdge(g, p, q, q);
      ReachesTrans(g, root, p, q);
      if d.name in st.seen {
        assert NameAgrees(db, root, p, i);
        MetIsListed(db, st, p, q, root);
      } else if q in st.seen {
        MetIsListed(db, st, p, q, root);
      } else {
        NewOrdered(db, st, p, i, q, depth, root);
      }
    }
  }

  lemma {:induction false} NewOrdered(db: Db, st: Found, p: string, i: nat, q: string, depth: nat, root: string)
    requires Resolved(db) && Tidy(db, root) && p in db.deps && q in NeedGraph(db)[p]
    requires Reaches(NeedGraph(db), root, p) && Reaches(NeedGraph(db), root, q)
    requires OnTheWay(db, st, p, root) && p in st.seen && p !in st.list && ListOk(st)
    requires i < |db.deps[p]| && Follows(db, p, db.deps[p][i]) && db.deps[p][i].target.value == q && q !in st.seen
    requires forall j: nat :: j < i ==> Kept(db, Elements(st.list), p, j)
    ensures var r := Visit(db, st, q, depth + 1);
      && OnTheWay(db, r, p, root) && StillUnlisted(st, r) && ListOk(r) && p !in r.list
      && forall j: nat :: j < i + 1 ==> Kept(db, Elements(r.list), p, j)
    decreases |db.deps.Keys - st.seen|, 0, 1
  {
    var g := NeedGraph(db);
    forall x | x in st.seen && x !in st.list ensures Reaches(g, x, q) {
      ReachesSelf(g, q);
      ReachesEdge(g, p, q, q);
      ReachesTrans(g, x, p, q);
    }
    VisitOrdered(db, st, q, depth + 1, root);
    VisitLists(db, st, q, depth + 1);
    VisitListOk(db, st, q, depth + 1);
    VisitReach(db, st, q, depth + 1);
    var r := Visit(db, st, q, depth + 1);
    forall x | x in r.seen && x !in st.seen ensures Reaches(g, root, x) {
      ReachesTrans(g, root, q, x);
    }
    forall j: nat | j < i + 1 ensures Kept(db, Elements(r.list), p, j) {
      assert j < i ==> Kept(db, Elements(st.list), p, j);
    }
  }

  /** Without cycles and with names that agree: the list holds exactly what the root
      reaches except the root, every dependent before its dependencies. */
  lemma TreeOrdered(db: Db, root: string)
    requires Resolved(db) && root in db.deps && Tidy(db, root)
    ensures var t := Tree(db, root);
      && Ordered(NeedGraph(db), t.list) && root !in t.list
      && forall x :: x in t.list <==> x != root && Reaches(NeedGraph(db), root, x)
  {
    var g, st := NeedGraph(db), Found({root}, []);
    ReachesSelf(g, root);
    assert Found({}, []).(seen := {} + {root}) == st;
    FollowOrdered(db, st, root, 0, 0, root);
    TreeSound(db, root);
    NamesAgreeCovers(db, root);
    TreeComplete(db, root);
  }

  // ---------------------------------------------------------------------
  // When they do not
  // ---------------------------------------------------------------------

  /** The root needs foo>=1, which is installed, and foo>=2, which bar provides. */
  function TwoFoos(): Db {
    Db(map["root" := [Dep("foo", Some("foo")), Dep("foo", Some("bar"))], "foo" := [], "bar" := []],
      map["root" := {}, "foo" := {}, "bar" := {}])
  }

  /** The second dependency looks up "foo", finds it visited and goes no further: bar is
      needed by the root and is not in its tree. */
  lemma ProviderLost()
    ensures Resolved(TwoFoos()) && Reaches(NeedGraph(TwoFoos()), "root", "bar")
    ensures "bar" !in Tree(TwoFoos(), "root").seen
  {
    var db := TwoFoos();
    var g := NeedGraph(db);
    assert db.deps["root"][1] == Dep("foo", Some("bar"));
    assert "bar" in g["root"];
    ReachesSelf(g, "bar");
    ReachesEdge(g, "root", "bar", "bar");
    var s0 := Found({"root"}, []);
    assert Found({}, []).(seen := {} + {"root"}) == s0;
    var s1 := Visit(db, s0, "foo", 1);
    assert s1.seen == {"root", "foo"} && "foo" in s1.list by {
      assert s0.(seen := s0.seen + {"foo"}) == Found({"root", "foo"}, []);
      assert Follow(db, Found({"root", "foo"}, []), "foo", 0, 1) == Found({"root", "foo"}, []);
    }
    assert Follow(db, s0, "root", 0, 0) == Follow(db, s1, "root", 1, 0);
    assert Touch(s1, "foo", false) == s1;
    assert Follow(db, s1, "root", 1, 0) == Follow(db, s1, "root", 2, 0) == s1;
  }
}
