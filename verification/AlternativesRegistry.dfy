/** lib/package_alternatives.c as it edits the registry in the package database. */
module AlternativesRegistry {
  import opened Sequences
  import opened Wrappers
  import opened Alternatives

  const ENOENT := 2

  /** lib/plist_remove.c:34-100 for strings: the first match goes, if there is one. */
  method RemoveString(q: seq<string>, p: string) returns (r: seq<string>)
    ensures p !in q ==> r == q
    ensures p in q ==> exists i :: 0 <= i < |q| && q[i] == p && p !in q[..i] && r == q[..i] + q[i + 1..]
    ensures Distinct(q) ==> r == Without(q, p)
  {
    for i := 0 to |q|
      invariant p !in q[..i]
    {
      if q[i] == p {
        assert q == q[..i] + [p] + q[i + 1..];
        if Distinct(q) {
          WithoutAt(q[..i], p, q[i + 1..]);
        }
        return q[..i] + q[i + 1..];
      }
      assert q[..i + 1] == q[..i] + [q[i]];
    }
    assert q[..|q|] == q;
    WithoutAbsent(q, p);
    return q;
  }

  /** lib/package_alternatives.c:252-264: what must exist before anything is set. */
  predicate CanSet(alternatives: Option<Groups>, keys: Option<seq<string>>, group: Option<string>) {
    alternatives.Some? && keys.Some? && keys.value != [] && (group.Some? ==> group.value in keys.value)
  }

  function Chosen(keys: seq<string>, group: Option<string>): seq<string> {
    if group.Some? then [group.value] else keys
  }

  lemma AllHeads(g: Groups, p: string, keys: seq<string>, fails: set<string>)
    requires forall j <- keys :: j in g ==> j !in fails
    ensures var g' := SetAll(g, p, keys, fails);
      forall k :: k in keys && k in g ==> k in g' && g'[k] == [p] + Without(g[k], p)
  {
    forall k | k in keys && k in g
      ensures k in SetAll(g, p, keys, fails) && SetAll(g, p, keys, fails)[k] == [p] + Without(g[k], p)
    {
      SetMakesHead(g, p, keys, fails, k);
    }
  }

  /** p is behind all providers that the group had, or the group is as it was; it is there
      if the group is one of its keys and no link fails. */
  ghost predicate Joins(g: Groups, g': Groups, p: string, keys: seq<string>, fails: set<string>, k: string) {
    var q, r := Providers(g, k), Providers(g', k);
    && (r == q || (k in keys && p !in q && r == q + [p]))
    && (k in keys && p !in q && fails == {} ==> r == q + [p])
  }

  class Registry {
    /** None until the first registration. */
    var alternatives: Option<Groups>

    ghost function Contents(): Groups
      reads this
    {
      if alternatives.Some? then alternatives.value else map[]
    }

    ghost predicate Valid()
      reads this
    {
      WellFormed(Contents())
    }

    constructor ()
      ensures Valid() && Contents() == map[]
    {
      alternatives := None;
    }

    /** lib/package_alternatives.c:240-315. `keys` are the groups of the installed
        package, None when it is not installed. */
    method SetPackage(p: string, keys: Option<seq<string>>, group: Option<string>, fails: set<string>) returns (rv: int)
      requires Valid()
      modifies this
      ensures Valid()
      ensures !CanSet(old(alternatives), keys, group) ==> rv == ENOENT && Contents() == old(Contents())
      ensures CanSet(old(alternatives), keys, group) ==>
        Contents() == Perform(old(Contents()), Set(p, Chosen(keys.value, group)), fails)
      ensures rv == 0 ==> CanSet(old(alternatives), keys, group)
      ensures rv == 0 ==> forall k :: k in Chosen(keys.value, group) && k in old(Contents()) ==>
        k in Contents() && Contents()[k] == [p] + Without(old(Contents())[k], p)
    {
      if !CanSet(alternatives, keys, group) {
        return ENOENT;
      }
      rv := 0;
      var chosen := Chosen(keys.value, group);
      ghost var start := Contents();
      SetAllKeeps(start, p, chosen, fails);
      var i := 0;
      while i < |chosen|
        invariant 0 <= i <= |chosen| && alternatives.Some? && Valid()
        invariant SetAll(Contents(), p, chosen[i..], fails) == SetAll(start, p, chosen, fails)
        invariant Contents().Keys == start.Keys && forall j :: 0 <= j < i && chosen[j] in start ==> chosen[j] !in fails
        decreases |chosen| - i
      {
        var g, k := alternatives.value, chosen[i];
        assert chosen[i..][1..] == chosen[i + 1..];
        if k in g {
          SetOneKeeps(g, p, k);
          var rest := RemoveString(g[k], p);
          alternatives := Some(g[k := [p] + rest]);
          if k in fails {
            return 1;
          }
        }
        i := i + 1;
      }
      AllHeads(start, p, chosen, fails);
    }

    /** lib/package_alternatives.c:333-404. */
    method UnregisterPackage(p: string, keys: seq<string>, update: bool, fails: set<string>)
      requires Valid()
      modifies this
      ensures Valid() && Contents() == Perform(old(Contents()), Unregister(p, update, keys), fails)
    {
      if alternatives == None {
        NothingToDrop(p, keys, fails);
        return;
      }
      ghost var start := Contents();
      UnregisterAllKeeps(start, p, keys, fails);
      var i := 0;
      while i < |keys|
        invariant 0 <= i <= |keys| && alternatives.Some? && Valid()
        invariant update ==> Contents() == start
        invariant !update ==> UnregisterAll(Contents(), p, keys[i..], fails) == UnregisterAll(start, p, keys, fails)
        decreases |keys| - i
      {
        var g, k := alternatives.value, keys[i];
        assert keys[i..][1..] == keys[i + 1..];
        i := i + 1;
        if k !in g {
          continue;
        }
        var current := g[k][0] == p;
        if update {
          continue;
        }
        DropOneKeeps(g, p, k);
        var rest := RemoveString(g[k], p);
        if rest == [] {
          alternatives := Some(g - {k});
          continue;
        }
        alternatives := Some(g[k := rest]);
        if current && k in fails {
          return;
        }
      }
    }

    /** lib/package_alternatives.c:413-474. The group is registered. */
    method PruneGroup(p: string, meta: bool, k: string)
      requires Valid() && k in Contents()
      modifies this
      ensures Valid() && alternatives.Some? && Contents() == PruneOne(old(Contents()), p, meta, k)
    {
      var g := alternatives.value;
      PruneOneKeeps(g, p, meta, k);
      DropOneKeeps(g, p, k);
      var current := g[k][0] == p;
      var rest := RemoveString(g[k], p);
      if rest == [] {
        alternatives := Some(g - {k});
        return;
      }
      alternatives := Some(g[k := rest]);
      if !current || meta {
        return;
      }
      var newest := rest[|rest| - 1];
      WithoutUnique(g[k], p);
      var others := RemoveString(rest, newest);
      alternatives := Some(g[k := [newest] + others]);
      assert g[k := rest][k := [newest] + others] == g[k := [newest] + others];
    }

    /** lib/package_alternatives.c:532-616, with remove_obsoletes at 477-530: `obsolete`
        are the groups of the installed version that the new one no longer provides.
        Pruning one that is not registered reads a null list; ok says that none was. */
    method RegisterPackage(p: string, obsolete: seq<string>, meta: bool, keys: seq<string>, fails: set<string>)
      returns (ok: bool)
      requires Valid() && Distinct(obsolete)
      modifies this
      ensures Valid() && alternatives.Some?
      ensures ok <==> forall k <- obsolete :: k in old(Contents())
      ensures ok ==> Contents() == Perform(old(Contents()), Register(p, obsolete, meta, keys), fails)
      ensures ok ==> forall k :: Joins(PruneAll(old(Contents()), p, meta, obsolete), Contents(), p, keys, fails, k)
    {
      if alternatives == None {
        alternatives := Some(map[]);
      }
      ok := PruneObsolete(p, obsolete, meta);
      if ok {
        AddProvider(p, keys, fails);
      }
    }

    method PruneObsolete(p: string, obsolete: seq<string>, meta: bool) returns (ok: bool)
      requires Valid() && alternatives.Some? && Distinct(obsolete)
      modifies this
      ensures Valid() && alternatives.Some?
      ensures ok <==> forall k <- obsolete :: k in old(Contents())
      ensures ok ==> Contents() == PruneAll(old(Contents()), p, meta, obsolete)
    {
      ghost var start := Contents();
      var i := 0;
      while i < |obsolete|
        invariant 0 <= i <= |obsolete| && alternatives.Some? && Valid()
        invariant forall j :: 0 <= j < i ==> obsolete[j] in start
        invariant forall j :: i <= j < |obsolete| ==> (obsolete[j] in Contents() <==> obsolete[j] in start)
        invariant PruneAll(Contents(), p, meta, obsolete[i..]) == PruneAll(start, p, meta, obsolete)
        decreases |obsolete| - i
      {
        assert obsolete[i..][1..] == obsolete[i + 1..];
        if obsolete[i] !in alternatives.value {
          assert obsolete[i] in obsolete;
          return false;
        }
        PruneGroup(p, meta, obsolete[i]);
        i := i + 1;
      }
      return true;
    }

    /** lib/package_alternatives.c:566-616. */
    method AddProvider(p: string, keys: seq<string>, fails: set<string>)
      requires Valid() && alternatives.Some?
      modifies this
      ensures Valid() && alternatives.Some? && Contents() == RegisterAll(old(Contents()), p, keys, fails)
      ensures forall k :: Joins(old(Contents()), Contents(), p, keys, fails, k)
    {
      ghost var start := Contents();
      RegisterAllKeeps(start, p, keys, fails);
      forall k ensures Joins(start, RegisterAll(start, p, keys, fails), p, keys, fails, k) {
        RegisterAppends(start, p, keys, fails, k);
      }
      var i := 0;
      while i < |keys|
        invariant 0 <= i <= |keys| && alternatives.Some? && Valid()
        invariant RegisterAll(Contents(), p, keys[i..], fails) == RegisterAll(start, p, keys, fails)
        decreases |keys| - i
      {
        var g, k := alternatives.value, keys[i];
        assert keys[i..][1..] == keys[i + 1..];
        i := i + 1;
        if k in g {
          if p in g[k] {
            if g[k][0] == p && k in fails {
              return;
            }
          } else {
            alternatives := Some(g[k := g[k] + [p]]);
          }
          continue;
        }
        alternatives := Some(g[k := [p]]);
        if k in fails {
          return;
        }
      }
    }
  }

  lemma {:induction false} NothingToDrop(p: string, keys: seq<string>, fails: set<string>)
    ensures UnregisterAll(map[], p, keys, fails) == map[]
  {
    if keys != [] {
      NothingToDrop(p, keys[1..], fails);
    }
  }
}
