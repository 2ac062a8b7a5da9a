/** lib/package_fulldeptree.c as it runs: a table of visited packages with the dependents
    noted for each, and the list built at its head. */
module FullDepTree {
  import opened Graph
  import opened Sequences
  import opened Wrappers
  import opened DepTreeSpec
  import opened DepTreeTheorems

  class Search {
    const db: Db
    const rpool: bool
    var items: map<string, seq<string>>
    var result: seq<string>

    constructor (db: Db, rpool: bool)
      ensures this.db == db && this.rpool == rpool && items == map[] && result == []
    {
      this.db, this.rpool := db, rpool;
      items, result := map[], [];
    }

    ghost function Now(): Found
      reads this
    {
      Found(items.Keys, result)
    }

    /** Only packages that are listed have dependents noted for them. */
    ghost predicate Valid()
      reads this
    {
      && Resolved(db) && items.Keys <= db.deps.Keys
      && forall x :: x in items && x !in result ==> items[x] == []
    }

    /** The dependents noted for what is not listed are visited and rank lower, so the
        recursion over them ends. */
    ghost predicate Ranked(rank: map<string, nat>)
      reads this
    {
      forall x, i :: x in items && x !in result && 0 <= i < |items[x]| ==>
        items[x][i] in items && items[x][i] in rank && x in rank && rank[items[x][i]] < rank[x]
    }

    /** Lists x after the dependents noted for it, unless it is listed or the root. */
    method AddDepsRecursive(x: string, first: bool, ghost rank: map<string, nat>)
      requires x in items && Ranked(rank)
      modifies this`result
      ensures x in old(result) ==> result == old(result)
      ensures x !in old(result) && items[x] == [] ==> result == if first then old(result) else [x] + old(result)
      ensures forall y :: y in old(result) ==> y in result
      ensures forall y :: y in result ==> y in old(result) || y in items
      ensures !first ==> x in result
      decreases if x in rank then rank[x] else 0
    {
      if x in result {
        return;
      }
      assert forall i :: 0 <= i < |items[x]| ==> items[x][i] in items && rank[items[x][i]] < rank[x];
      var i := 0;
      while i < |items[x]|
        invariant 0 <= i <= |items[x]| && Ranked(rank)
        invariant forall y :: y in old(result) ==> y in result
        invariant forall y :: y in result ==> y in old(result) || y in items
        invariant items[x] == [] ==> result == old(result)
      {
        AddDepsRecursive(items[x][i], false, rank);
        i := i + 1;
      }
      if !first {
        result := [x] + result;
      }
    }

    /** A package met again: the search function's Touch. */
    method Meet(x: string, first: bool)
      requires Valid() && x in items
      modifies this`result
      ensures Valid() && Now() == Touch(old(Now()), x, first)
    {
      AddDepsRecursive(x, first, map[]);
    }

    /** Visits p and everything it leads to. Fails when the packages come from the
        repository pool and a dependency resolves to nothing. */
    method OrderedDepends(p: string, depth: nat) returns (ok: bool)
      requires Valid() && p in db.deps
      modifies this
      ensures ok ==> Valid() && Now() == Visit(db, old(Now()), p, depth)
      ensures ok && rpool ==> forall x :: x in items && x !in old(items) ==> !Unresolvable(db, x)
      ensures !ok ==> rpool && exists x :: x in Visit(db, old(Now()), p, depth).seen && Unresolvable(db, x)
      decreases |db.deps.Keys - items.Keys|, 0, 0
    {
      if p in items {
        Meet(p, depth == 0);
        return true;
      }
      VisitNew(db, Now(), p, depth);
      ghost var st := Found(items.Keys + {p}, result);
      assert db.deps.Keys - st.seen == (db.deps.Keys - items.Keys) - {p};
      items := items[p := []];
      assert Now() == st;
      ok := FollowAll(p, depth);
      if ok && depth > 0 && p !in result {
        result := [p] + result;
      }
    }

    /** The loop over the dependencies of p. */
    method FollowAll(p: string, depth: nat) returns (ok: bool)
      requires Valid() && p in db.deps && p in items
      modifies this
      ensures ok ==> Valid() && Now() == Follow(db, old(Now()), p, 0, depth)
      ensures ok && rpool ==> !Unresolvable(db, p)
      ensures ok && rpool ==> forall x :: x in items && x !in old(items) ==> !Unresolvable(db, x)
      ensures !ok ==> rpool && exists x :: x in Follow(db, old(Now()), p, 0, depth).seen && Unresolvable(db, x)
      decreases |db.deps.Keys - items.Keys|, 2, 0
    {
      var i := 0;
      while i < |db.deps[p]|
        invariant 0 <= i <= |db.deps[p]| && Valid() && old(items).Keys <= items.Keys
        invariant Follow(db, Now(), p, i, depth) == Follow(db, old(Now()), p, 0, depth)
        invariant rpool ==> forall j :: 0 <= j < i ==> db.deps[p][j].target.Some?
        invariant rpool ==> forall x :: x in items && x !in old(items) ==> !Unresolvable(db, x)
        decreases |db.deps[p]| - i
      {
        var d := db.deps[p][i];
        if rpool && d.target.None? {
          assert Unresolvable(db, p);
          return false;
        }
        Smaller(db.deps.Keys, old(items).Keys, items.Keys);
        ghost var before := Now();
        if Follows(db, p, d) {
          ok := FollowOne(p, i, depth);
          if !ok {
            return;
          }
        }
        assert Now() == Step(db, before, p, i, depth);
        i := i + 1;
      }
      ok := true;
    }

    /** One dependency that is followed. */
    method FollowOne(p: string, i: nat, depth: nat) returns (ok: bool)
      requires Valid() && p in db.deps && i < |db.deps[p]| && Follows(db, p, db.deps[p][i])
      modifies this
      ensures ok ==> Valid() && old(items).Keys <= items.Keys && Now() == Step(db, old(Now()), p, i, depth)
      ensures ok && rpool ==> forall x :: x in items && x !in old(items) ==> !Unresolvable(db, x)
      ensures !ok ==> rpool && exists x :: x in Step(db, old(Now()), p, i, depth).seen && Unresolvable(db, x)
      decreases |db.deps.Keys - items.Keys|, 1, 0
    {
      var d := db.deps[p][i];
      if d.name in items {
        Meet(d.name, false);
        return true;
      }
      var q := d.target.value;
      ok := OrderedDepends(q, depth + 1);
      if ok {
        items := items[q := [p] + items[q]];
        assert items.Keys == Visit(db, old(Now()), q, depth + 1).seen;
      }
    }
  }

  /** The whole tree of a package is what the search function finds. There is none
      exactly when the packages come from the repository pool and one that is visited
      has a dependency the pool lacks. Without cycles and with names that agree, it is
      exactly what the root reaches except the root, every dependent before its
      dependencies. */
  method GetFullDepTree(db: Db, rpool: bool, root: string) returns (r: Option<seq<string>>)
    requires Resolved(db) && root in db.deps
    ensures r.None? <==> rpool && exists x :: x in Tree(db, root).seen && Unresolvable(db, x)
    ensures r.Some? ==> r.value == Tree(db, root).list
    ensures r.Some? ==> Distinct(r.value) && Elements(r.value) + {root} == Tree(db, root).seen
    ensures r.Some? && Tidy(db, root) ==> Ordered(NeedGraph(db), r.value)
    ensures r.Some? && Tidy(db, root) ==> forall x :: x in r.value <==> x != root && Reaches(NeedGraph(db), root, x)
  {
    TreeSound(db, root);
    if Tidy(db, root) {
      TreeOrdered(db, root);
    }
    var s := new Search(db, rpool);
    assert s.Now() == Found({}, []);
    var ok := s.OrderedDepends(root, 0);
    return if ok then Some(s.result) else None;
  }

  /** When names agree far enough there is no tree exactly when something reached is
      unresolvable. */
  lemma FailsIffReached(db: Db, root: string)
    requires Resolved(db) && root in db.deps && CoveredByNames(db, root)
    ensures (exists x :: x in Tree(db, root).seen && Unresolvable(db, x))
      <==> exists x :: Reaches(NeedGraph(db), root, x) && Unresolvable(db, x)
  {
    TreeComplete(db, root);
  }
}
