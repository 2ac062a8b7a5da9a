/** The depth-first search of lib/package_fulldeptree.c as a function: which packages it
    visits and in which order it lists them, for every dependency relation. */
module DepTreeSpec {
  import opened Graph
  import opened Sequences
  import opened Wrappers

  /** A run dependency: the name in its pattern and the package it resolves to. */
  datatype Dep = Dep(name: string, target: Option<string>)

  /** The packages of the database or the repository pool, by name; `vpkgs` are
      the names of the virtual packages each one provides. */
  datatype Db = Db(deps: map<string, seq<Dep>>, vpkgs: map<string, set<string>>)

  ghost predicate Resolved(db: Db) {
    && db.vpkgs.Keys == db.deps.Keys
    && forall p, i :: p in db.deps && 0 <= i < |db.deps[p]| && db.deps[p][i].target.Some? ==>
      db.deps[p][i].target.value in db.deps
  }

  /** The dependency is followed: it resolves and p does not provide it itself. */
  predicate Follows(db: Db, p: string, d: Dep)
    requires p in db.vpkgs
  {
    d.target.Some? && d.name !in db.vpkgs[p]
  }

  ghost function Needs(db: Db, p: string): set<string>
    requires Resolved(db) && p in db.deps
  {
    set i | 0 <= i < |db.deps[p]| && Follows(db, p, db.deps[p][i]) :: db.deps[p][i].target.value
  }

  ghost function NeedGraph(db: Db): Digraph<string>
    requires Resolved(db)
  {
    map p | p in db.deps :: Needs(db, p)
  }

  /** Some dependency of p resolves to nothing. */
  predicate Unresolvable(db: Db, p: string) {
    p in db.deps && exists i :: 0 <= i < |db.deps[p]| && db.deps[p][i].target.None?
  }

  // ---------------------------------------------------------------------
  // The search
  // ---------------------------------------------------------------------

  /** The packages visited and the list built so far, newest first. */
  datatype Found = Found(seen: set<string>, list: seq<string>)

  /** A package met again is listed unless it is, or is the root. */
  function Touch(st: Found, x: string, first: bool): Found {
    if x in st.list || first then st else st.(list := [x] + st.list)
  }

  ghost function Visit(db: Db, st: Found, p: string, depth: nat): (r: Found)
    requires Resolved(db) && p in db.deps && st.seen <= db.deps.Keys
    ensures st.seen <= r.seen <= db.deps.Keys && p in r.seen && (depth > 0 ==> p in r.list)
    decreases |db.deps.Keys - st.seen|, 0, 0
  {
    if p in st.seen then Touch(st, p, depth == 0)
    else
      assert db.deps.Keys - (st.seen + {p}) == (db.deps.Keys - st.seen) - {p};
      var r := Follow(db, st.(seen := st.seen + {p}), p, 0, depth);
      if depth > 0 then Touch(r, p, false) else r
  }

  /** The dependencies of p from the i-th on. */
  ghost function Follow(db: Db, st: Found, p: string, i: nat, depth: nat): (r: Found)
    requires Resolved(db) && p in db.deps && st.seen <= db.deps.Keys && i <= |db.deps[p]|
    ensures st.seen <= r.seen <= db.deps.Keys
    decreases |db.deps.Keys - st.seen|, 1, |db.deps[p]| - i
  {
    if i == |db.deps[p]| then st
    else
      var d := db.deps[p][i];
      if !Follows(db, p, d) then Follow(db, st, p, i + 1, depth)
      else if d.name in st.seen then Follow(db, Touch(st, d.name, false), p, i + 1, depth)
      else
        var r := Visit(db, st, d.target.value, depth + 1);
        Smaller(db.deps.Keys, st.seen, r.seen);
        Follow(db, r, p, i + 1, depth)
  }

  lemma VisitNew(db: Db, st: Found, p: string, depth: nat)
    requires Resolved(db) && p in db.deps && st.seen <= db.deps.Keys && p !in st.seen
    ensures var r := Follow(db, st.(seen := st.seen + {p}), p, 0, depth);
      Visit(db, st, p, depth) == if depth > 0 then Touch(r, p, false) else r
  {
  }

  lemma Smaller(all: set<string>, s: set<string>, t: set<string>)
    requires s <= t
    ensures |all - t| <= |all - s|
  {
    SubsetCard(all - t, all - s);
  }

  /** What the search finds from a root. */
  ghost function Tree(db: Db, root: string): (r: Found)
    requires Resolved(db) && root in db.deps
    ensures r.seen <= db.deps.Keys && root in r.seen
  {
    Visit(db, Found({}, []), root, 0)
  }

  // ---------------------------------------------------------------------
  // What every search keeps
  // ---------------------------------------------------------------------

  ghost predicate ListOk(st: Found) {
    Distinct(st.list) && Elements(st.list) <= st.seen
  }

  lemma TouchListOk(st: Found, x: string, first: bool)
    requires ListOk(st) && x in st.seen
    ensures ListOk(Touch(st, x, first))
  {
  }

  lemma {:induction false} VisitListOk(db: Db, st: Found, p: string, depth: nat)
    requires Resolved(db) && p in db.deps && st.seen <= db.deps.Keys && ListOk(st)
    ensures ListOk(Visit(db, st, p, depth))
    decreases |db.deps.Keys - st.seen|, 0, 0
  {
    if p in st.seen {
      TouchListOk(st, p, depth == 0);
    } else {
      var st1 := st.(seen := st.seen + {p});
      assert db.deps.Keys - st1.seen == (db.deps.Keys - st.seen) - {p};
      FollowListOk(db, st1, p, 0, depth);
      TouchListOk(Follow(db, st1, p, 0, depth), p, false);
    }
  }

  lemma {:induction false} FollowListOk(db: Db, st: Found, p: string, i: nat, depth: nat)
    requires Resolved(db) && p in db.deps && st.seen <= db.deps.Keys && i <= |db.deps[p]| && ListOk(st)
    ensures ListOk(Follow(db, st, p, i, depth))
    decreases |db.deps.Keys - st.seen|, 1, |db.deps[p]| - i
  {
    if i < |db.deps[p]| {
      var d := db.deps[p][i];
      var r := Step(db, st, p, i, depth);
      if Follows(db, p, d) && d.name in st.seen {
        TouchListOk(st, d.name, false);
      } else if Follows(db, p, d) {
        VisitListOk(db, st, d.target.value, depth + 1);
        Smaller(db.deps.Keys, st.seen, r.seen);
      }
      FollowListOk(db, r, p, i + 1, depth);
    }
  }

  /** What one dependency does. */
  ghost function Step(db: Db, st: Found, p: string, i: nat, depth: nat): (r: Found)
    requires Resolved(db) && p in db.deps && st.seen <= db.deps.Keys && i < |db.deps[p]|
    ensures st.seen <= r.seen <= db.deps.Keys && Follow(db, st, p, i, depth) == Follow(db, r, p, i + 1, depth)
  {
    var d := db.deps[p][i];
    if !Follows(db, p, d) then st
    else if d.name in st.seen then Touch(st, d.name, false)
    else Visit(db, st, d.target.value, depth + 1)
  }

  /** Only what p reaches is visited on its behalf. */
  lemma {:induction false} VisitReach(db: Db, st: Found, p: string, depth: nat)
    requires Resolved(db) && p in db.deps && st.seen <= db.deps.Keys
    ensures forall x :: x in Visit(db, st, p, depth).seen && x !in st.seen ==> Reaches(NeedGraph(db), p, x)
    decreases |db.deps.Keys - st.seen|, 0, 0
  {
    ReachesSelf(NeedGraph(db), p);
    if p !in st.seen {
      var st1 := st.(seen := st.seen + {p});
      assert db.deps.Keys - st1.seen == (db.deps.Keys - st.seen) - {p};
      FollowReach(db, st1, p, 0, depth);
    }
  }

  lemma {:induction false} FollowReach(db: Db, st: Found, p: string, i: nat, depth: nat)
    requires Resolved(db) && p in db.deps && st.seen <= db.deps.Keys && i <= |db.deps[p]|
    ensures forall x :: x in Follow(db, st, p, i, depth).seen && x !in st.seen ==> Reaches(NeedGraph(db), p, x)
    decreases |db.deps.Keys - st.seen|, 1, |db.deps[p]| - i
  {
    if i < |db.deps[p]| {
      var g, d := NeedGraph(db), db.deps[p][i];
      var r := Step(db, st, p, i, depth);
      if Follows(db, p, d) && d.name !in st.seen {
        var q := d.target.value;
        VisitReach(db, st, q, depth + 1);
        Smaller(db.deps.Keys, st.seen, r.seen);
        assert q in g[p];
        forall x | Reaches(g, q, x) ensures Reaches(g, p, x) {
          ReachesEdge(g, p, q, x);
        }
      }
      FollowReach(db, r, p, i + 1, depth);
    }
  }

  /** Everything visited is listed, but for what was unlisted before and a root. */
  ghost predicate Lists(st: Found, r: Found, p: string, root: bool) {
    && Elements(st.list) <= Elements(r.list)
    && forall x :: x in r.seen && x !in r.list ==> (x in st.seen && x !in st.list) || (root && x == p)
  }

  lemma {:induction false} VisitLists(db: Db, st: Found, p: string, depth: nat)
    requires Resolved(db) && p in db.deps && st.seen <= db.deps.Keys
    ensures Lists(st, Visit(db, st, p, depth), p, depth == 0)
    decreases |db.deps.Keys - st.seen|, 0, 0
  {
    if p !in st.seen {
      var st1 := st.(seen := st.seen + {p});
      assert db.deps.Keys - st1.seen == (db.deps.Keys - st.seen) - {p};
      FollowLists(db, st1, p, 0, depth);
    }
  }

  lemma {:induction false} FollowLists(db: Db, st: Found, p: string, i: nat, depth: nat)
    requires Resolved(db) && p in db.deps && st.seen <= db.deps.Keys && i <= |db.deps[p]|
    ensures Lists(st, Follow(db, st, p, i, depth), p, false)
    decreases |db.deps.Keys - st.seen|, 1, |db.deps[p]| - i
  {
    if i < |db.deps[p]| {
      var d := db.deps[p][i];
      var r := Step(db, st, p, i, depth);
      if Follows(db, p, d) && d.name !in st.seen {
        VisitLists(db, st, d.target.value, depth + 1);
        Smaller(db.deps.Keys, st.seen, r.seen);
      }
      assert Lists(st, r, p, false);
      FollowLists(db, r, p, i + 1, depth);
    }
  }

  /** A followed dependency led to its target, or a package of its name was there. */
  ghost predicate Led(db: Db, seen: set<string>, x: string, i: nat)
    requires Resolved(db) && x in db.deps && i < |db.deps[x]|
  {
    Follows(db, x, db.deps[x][i]) ==> db.deps[x][i].target.value in seen || db.deps[x][i].name in seen
  }

  ghost predicate AllLed(db: Db, seen: set<string>, x: string)
    requires Resolved(db) && x in db.deps
  {
    forall i: nat :: i < |db.deps[x]| ==> Led(db, seen, x, i)
  }

  lemma {:induction false} VisitLeads(db: Db, st: Found, p: string, depth: nat)
    requires Resolved(db) && p in db.deps && st.seen <= db.deps.Keys
    ensures var r := Visit(db, st, p, depth);
      forall x :: x in r.seen && x !in st.seen ==> AllLed(db, r.seen, x)
    decreases |db.deps.Keys - st.seen|, 0, 0
  {
    if p !in st.seen {
      var st1 := st.(seen := st.seen + {p});
      assert db.deps.Keys - st1.seen == (db.deps.Keys - st.seen) - {p};
      FollowLeads(db, st1, p, 0, depth);
    }
  }

  lemma {:induction false} FollowLeads(db: Db, st: Found, p: string, i: nat, depth: nat)
    requires Resolved(db) && p in db.deps && st.seen <= db.deps.Keys && i <= |db.deps[p]|
    ensures var r := Follow(db, st, p, i, depth);
      && (forall x :: x in r.seen && x !in st.seen ==> AllLed(db, r.seen, x))
      && (forall j: nat :: i <= j < |db.deps[p]| ==> Led(db, r.seen, p, j))
    decreases |db.deps.Keys - st.seen|, 1, |db.deps[p]| - i
  {
    if i < |db.deps[p]| {
      var d := db.deps[p][i];
      var m := Step(db, st, p, i, depth);
      if Follows(db, p, d) && d.name !in st.seen {
        VisitLeads(db, st, d.target.value, depth + 1);
        Smaller(db.deps.Keys, st.seen, m.seen);
      }
      FollowLeads(db, m, p, i + 1, depth);
      var r := Follow(db, m, p, i + 1, depth);
      forall x | x in m.seen && x !in st.seen ensures AllLed(db, r.seen, x) {
        LedMore(db, m.seen, r.seen, x);
      }
      assert Led(db, m.seen, p, i);
    }
  }

  lemma LedMore(db: Db, s: set<string>, t: set<string>, x: string)
    requires Resolved(db) && x in db.deps && s <= t && AllLed(db, s, x)
    ensures AllLed(db, t, x)
  {
    forall i: nat | i < |db.deps[x]| ensures Led(db, t, x, i) {
      assert Led(db, s, x, i);
    }
  }
}
