/** lib/package_alternatives.c: the provider lists of the alternatives groups, head first.
    The symbolic links are left out; a group in `fails` is one whose links cannot be
    created, which ends the loop that met it. */
module Alternatives {
  import opened Sequences

  type Groups = map<string, seq<string>>

  function Providers(g: Groups, k: string): seq<string> {
    if k in g then g[k] else []
  }

  /** Every group has a provider and none twice. */
  predicate WellFormed(g: Groups) {
    forall k <- g.Keys :: g[k] != [] && Distinct(g[k])
  }

  // ---------------------------------------------------------------------
  // Provider lists
  // ---------------------------------------------------------------------

  function Without(q: seq<string>, p: string): (r: seq<string>)
    ensures p !in r && forall x :: x in r <==> x in q && x != p
  {
    if q == [] then []
    else if q[0] == p then Without(q[1..], p)
    else [q[0]] + Without(q[1..], p)
  }

  lemma {:induction false} WithoutAbsent(q: seq<string>, p: string)
    requires p !in q
    ensures Without(q, p) == q
  {
    if q != [] {
      WithoutAbsent(q[1..], p);
    }
  }

  lemma {:induction false} WithoutConcat(a: seq<string>, b: seq<string>, p: string)
    ensures Without(a + b, p) == Without(a, p) + Without(b, p)
  {
    if a == [] {
      assert a + b == b;
    } else {
      assert (a + b)[1..] == a[1..] + b;
      WithoutConcat(a[1..], b, p);
    }
  }

  lemma {:induction false} WithoutUnique(q: seq<string>, p: string)
    requires Distinct(q)
    ensures Distinct(Without(q, p))
  {
    if q != [] {
      assert q[0] !in q[1..];
      WithoutUnique(q[1..], p);
    }
  }

  /** Dropping p at the place where it stands. */
  lemma WithoutAt(a: seq<string>, p: string, b: seq<string>)
    requires p !in a && p !in b
    ensures Without(a + [p] + b, p) == a + b
  {
    WithoutConcat(a + [p], b, p);
    WithoutConcat(a, [p], p);
    WithoutAbsent(a, p);
    WithoutAbsent(b, p);
    assert Without([p], p) == [];
    assert a + [] == a;
  }

  lemma WithoutHead(q: seq<string>, p: string)
    ensures Without([p] + q, p) == Without(q, p)
  {
    WithoutConcat([p], q, p);
  }

  lemma WithoutTwice(q: seq<string>, p: string)
    ensures Without(Without(q, p), p) == Without(q, p)
  {
    WithoutAbsent(Without(q, p), p);
  }

  // ---------------------------------------------------------------------
  // One group
  // ---------------------------------------------------------------------

  function SetOne(g: Groups, p: string, k: string): Groups {
    if k in g then g[k := [p] + Without(g[k], p)] else g
  }

  function RegisterOne(g: Groups, p: string, k: string): Groups {
    if k !in g then g[k := [p]]
    else if p in g[k] then g
    else g[k := g[k] + [p]]
  }

  function DropOne(g: Groups, p: string, k: string): Groups {
    if k !in g then g
    else if Without(g[k], p) == [] then g - {k}
    else g[k := Without(g[k], p)]
  }

  /** A group that an update of p no longer provides. When p was the head and is not
      empty of dependencies, the most recent provider takes over. */
  function PruneOne(g: Groups, p: string, meta: bool, k: string): Groups {
    var g1 := DropOne(g, p, k);
    if k in g && k in g1 && g[k] != [] && g[k][0] == p && !meta then SetOne(g1, g1[k][|g1[k]| - 1], k) else g1
  }

  // ---------------------------------------------------------------------
  // The loops over a package's groups
  // ---------------------------------------------------------------------

  function SetAll(g: Groups, p: string, keys: seq<string>, fails: set<string>): Groups
    decreases |keys|
  {
    if keys == [] then g
    else
      var g1 := SetOne(g, p, keys[0]);
      if keys[0] in g && keys[0] in fails then g1 else SetAll(g1, p, keys[1..], fails)
  }

  function RegisterAll(g: Groups, p: string, keys: seq<string>, fails: set<string>): Groups
    decreases |keys|
  {
    if keys == [] then g
    else
      var k := keys[0];
      var g1 := RegisterOne(g, p, k);
      if k in fails && (k !in g || (g[k] != [] && g[k][0] == p)) then g1 else RegisterAll(g1, p, keys[1..], fails)
  }

  function UnregisterAll(g: Groups, p: string, keys: seq<string>, fails: set<string>): Groups
    decreases |keys|
  {
    if keys == [] then g
    else
      var k := keys[0];
      var g1 := DropOne(g, p, k);
      if k in fails && k in g && k in g1 && g[k] != [] && g[k][0] == p then g1
      else UnregisterAll(g1, p, keys[1..], fails)
  }

  function PruneAll(g: Groups, p: string, meta: bool, keys: seq<string>): Groups
    decreases |keys|
  {
    if keys == [] then g else PruneAll(PruneOne(g, p, meta, keys[0]), p, meta, keys[1..])
  }

  datatype Op =
    | Register(p: string, obsolete: seq<string>, meta: bool, keys: seq<string>)
    | Unregister(p: string, update: bool, keys: seq<string>)
    | Set(p: string, keys: seq<string>)

  function Perform(g: Groups, op: Op, fails: set<string>): Groups {
    match op
    case Register(p, obsolete, meta, keys) => RegisterAll(PruneAll(g, p, meta, obsolete), p, keys, fails)
    case Unregister(p, update, keys) => if update then g else UnregisterAll(g, p, keys, fails)
    case Set(p, keys) => SetAll(g, p, keys, fails)
  }

  datatype Call = Call(op: Op, fails: set<string>)

  function Run(g: Groups, calls: seq<Call>): Groups {
    if calls == [] then g else Perform(Run(g, calls[..|calls| - 1]), calls[|calls| - 1].op, calls[|calls| - 1].fails)
  }

  // ---------------------------------------------------------------------
  // Well-formedness over every run
  // ---------------------------------------------------------------------

  lemma SetOneKeeps(g: Groups, p: string, k: string)
    requires WellFormed(g)
    ensures WellFormed(SetOne(g, p, k)) && SetOne(g, p, k).Keys == g.Keys
  {
    if k in g {
      WithoutUnique(g[k], p);
    }
  }

  lemma DropOneKeeps(g: Groups, p: string, k: string)
    requires WellFormed(g)
    ensures WellFormed(DropOne(g, p, k))
  {
    if k in g {
      WithoutUnique(g[k], p);
    }
  }

  lemma PruneOneKeeps(g: Groups, p: string, meta: bool, k: string)
    requires WellFormed(g)
    ensures WellFormed(PruneOne(g, p, meta, k))
  {
    var g1 := DropOne(g, p, k);
    DropOneKeeps(g, p, k);
    if k in g1 {
      SetOneKeeps(g1, g1[k][|g1[k]| - 1], k);
    }
  }

  lemma {:induction false} SetAllKeeps(g: Groups, p: string, keys: seq<string>, fails: set<string>)
    requires WellFormed(g)
    ensures WellFormed(SetAll(g, p, keys, fails))
    decreases |keys|
  {
    if keys != [] {
      SetOneKeeps(g, p, keys[0]);
      SetAllKeeps(SetOne(g, p, keys[0]), p, keys[1..], fails);
    }
  }

  lemma {:induction false} RegisterAllKeeps(g: Groups, p: string, keys: seq<string>, fails: set<string>)
    requires WellFormed(g)
    ensures WellFormed(RegisterAll(g, p, keys, fails))
    decreases |keys|
  {
    if keys != [] {
      RegisterAllKeeps(RegisterOne(g, p, keys[0]), p, keys[1..], fails);
    }
  }

  lemma {:induction false} UnregisterAllKeeps(g: Groups, p: string, keys: seq<string>, fails: set<string>)
    requires WellFormed(g)
    ensures WellFormed(UnregisterAll(g, p, keys, fails))
    decreases |keys|
  {
    if keys != [] {
      DropOneKeeps(g, p, keys[0]);
      UnregisterAllKeeps(DropOne(g, p, keys[0]), p, keys[1..], fails);
    }
  }

  lemma {:induction false} PruneAllKeeps(g: Groups, p: string, meta: bool, keys: seq<string>)
    requires WellFormed(g)
    ensures WellFormed(PruneAll(g, p, meta, keys))
    decreases |keys|
  {
    if keys != [] {
      PruneOneKeeps(g, p, meta, keys[0]);
      PruneAllKeeps(PruneOne(g, p, meta, keys[0]), p, meta, keys[1..]);
    }
  }

  lemma PerformKeeps(g: Groups, op: Op, fails: set<string>)
    requires WellFormed(g)
    ensures WellFormed(Perform(g, op, fails))
  {
    match op {
      case Register(p, obsolete, meta, keys) =>
        PruneAllKeeps(g, p, meta, obsolete);
        RegisterAllKeeps(PruneAll(g, p, meta, obsolete), p, keys, fails);
      case Unregister(p, update, keys) => UnregisterAllKeeps(g, p, keys, fails);
      case Set(p, keys) => SetAllKeeps(g, p, keys, fails);
    }
  }

  /** After any run of calls every group's list is non-empty and free of duplicates. */
  lemma {:induction false} RunWellFormed(calls: seq<Call>)
    ensures WellFormed(Run(map[], calls))
  {
    if calls != [] {
      var n := |calls| - 1;
      RunWellFormed(calls[..n]);
      PerformKeeps(Run(map[], calls[..n]), calls[n].op, calls[n].fails);
    }
  }

  // ---------------------------------------------------------------------
  // What each call does to the others
  // ---------------------------------------------------------------------

  /** Apart from p, every group lists the same providers in the same order. */
  ghost predicate OthersSame(g: Groups, g': Groups, p: string) {
    forall k :: Without(Providers(g', k), p) == Without(Providers(g, k), p)
  }

  lemma SetOneOthers(g: Groups, p: string, k: string)
    ensures OthersSame(g, SetOne(g, p, k), p)
  {
    if k in g {
      WithoutHead(Without(g[k], p), p);
      WithoutTwice(g[k], p);
    }
  }

  lemma DropOneOthers(g: Groups, p: string, k: string)
    ensures OthersSame(g, DropOne(g, p, k), p)
  {
    if k in g {
      WithoutTwice(g[k], p);
    }
  }

  lemma RegisterOneOthers(g: Groups, p: string, k: string)
    ensures OthersSame(g, RegisterOne(g, p, k), p)
  {
    if k in g {
      WithoutConcat(g[k], [p], p);
    }
    assert Without([p], p) == [];
  }

  lemma {:induction false} SetAllOthers(g: Groups, p: string, keys: seq<string>, fails: set<string>)
    ensures OthersSame(g, SetAll(g, p, keys, fails), p)
    decreases |keys|
  {
    if keys != [] {
      SetOneOthers(g, p, keys[0]);
      SetAllOthers(SetOne(g, p, keys[0]), p, keys[1..], fails);
    }
  }

  lemma {:induction false} RegisterAllOthers(g: Groups, p: string, keys: seq<string>, fails: set<string>)
    ensures OthersSame(g, RegisterAll(g, p, keys, fails), p)
    decreases |keys|
  {
    if keys != [] {
      RegisterOneOthers(g, p, keys[0]);
      RegisterAllOthers(RegisterOne(g, p, keys[0]), p, keys[1..], fails);
    }
  }

  /** Registering puts a new provider behind all others of its groups, so that whoever heads
      a group still does, and leaves everything else alone; without link failures it
      reaches every group. */
  lemma {:induction false} RegisterAppends(g: Groups, p: string, keys: seq<string>, fails: set<string>, k: string)
    ensures var q, r := Providers(g, k), Providers(RegisterAll(g, p, keys, fails), k);
      && (r == q || (k in keys && p !in q && r == q + [p]))
      && (k in keys && p !in q && fails == {} ==> r == q + [p])
    decreases |keys|
  {
    if keys != [] {
      RegisterAppends(RegisterOne(g, p, keys[0]), p, keys[1..], fails, k);
    }
  }

  lemma {:induction false} UnregisterAllOthers(g: Groups, p: string, keys: seq<string>, fails: set<string>)
    ensures OthersSame(g, UnregisterAll(g, p, keys, fails), p)
    decreases |keys|
  {
    if keys != [] {
      DropOneOthers(g, p, keys[0]);
      UnregisterAllOthers(DropOne(g, p, keys[0]), p, keys[1..], fails);
    }
  }

  /** What pruning p leaves of a provider list: if p was the head and has dependencies,
      the last of the others moves to the head. */
  function Pruned(q: seq<string>, p: string, meta: bool): seq<string> {
    var rest := Without(q, p);
    if q != [] && q[0] == p && !meta && rest != [] then [rest[|rest| - 1]] + rest[..|rest| - 1] else rest
  }

  lemma PrunePromotes(g: Groups, p: string, meta: bool, k: string)
    requires WellFormed(g)
    ensures Providers(PruneOne(g, p, meta, k), k) == Pruned(Providers(g, k), p, meta)
  {
    var rest := Without(Providers(g, k), p);
    var n := |rest| - 1;
    if k in g && rest != [] {
      WithoutUnique(g[k], p);
      WithoutAt(rest[..n], rest[n], []);
      assert rest[..n] + [rest[n]] + [] == rest && rest[..n] + [] == rest[..n];
      assert rest[n] in rest;
    }
  }

  /** Pruning again finds nothing to do. */
  lemma PrunedLacks(q: seq<string>, p: string, meta: bool)
    ensures p !in Pruned(q, p, meta) && Without(Pruned(q, p, meta), p) == Pruned(q, p, meta)
    ensures Pruned(Pruned(q, p, meta), p, meta) == Pruned(q, p, meta)
  {
    var rest := Without(q, p);
    assert rest != [] ==> rest[|rest| - 1] in rest;
    assert p !in Pruned(q, p, meta);
    WithoutAbsent(Pruned(q, p, meta), p);
  }

  lemma {:induction false} PruneAllAt(g: Groups, p: string, meta: bool, keys: seq<string>, k: string)
    requires WellFormed(g)
    ensures Providers(PruneAll(g, p, meta, keys), k) ==
      if k in keys then Pruned(Providers(g, k), p, meta) else Providers(g, k)
    decreases |keys|
  {
    if keys != [] {
      var g1 := PruneOne(g, p, meta, keys[0]);
      PruneOneKeeps(g, p, meta, keys[0]);
      PrunePromotes(g, p, meta, keys[0]);
      PrunedLacks(Providers(g, k), p, meta);
      PruneAllAt(g1, p, meta, keys[1..], k);
      assert k != keys[0] ==> Providers(g1, k) == Providers(g, k);
    }
  }

  /** No call reorders, adds or removes providers other than its package, but for the
      promotion that pruning an obsolete group can make. */
  lemma PerformOthers(g: Groups, op: Op, fails: set<string>, k: string)
    requires WellFormed(g)
    ensures Without(Providers(Perform(g, op, fails), k), op.p) ==
      if op.Register? && k in op.obsolete then Pruned(Providers(g, k), op.p, op.meta)
      else Without(Providers(g, k), op.p)
  {
    match op {
      case Register(p, obsolete, meta, keys) =>
        var g1 := PruneAll(g, p, meta, obsolete);
        PruneAllAt(g, p, meta, obsolete, k);
        RegisterAllOthers(g1, p, keys, fails);
        PrunedLacks(Providers(g, k), p, meta);
        assert Without(Providers(RegisterAll(g1, p, keys, fails), k), p) == Without(Providers(g1, k), p);
      case Unregister(p, update, keys) => UnregisterAllOthers(g, p, keys, fails);
      case Set(p, keys) => SetAllOthers(g, p, keys, fails);
    }
  }

  // ---------------------------------------------------------------------
  // What each call does for its package
  // ---------------------------------------------------------------------

  /** Groups outside the keys are left alone. */
  lemma {:induction false} SetAllElsewhere(g: Groups, p: string, keys: seq<string>, fails: set<string>, k: string)
    requires k !in keys
    ensures Providers(SetAll(g, p, keys, fails), k) == Providers(g, k)
    ensures SetAll(g, p, keys, fails).Keys == g.Keys
    decreases |keys|
  {
    if keys != [] {
      SetAllElsewhere(SetOne(g, p, keys[0]), p, keys[1..], fails, k);
    }
  }

  /** Setting makes the package the head of every group of its keys that exists. */
  lemma {:induction false} SetMakesHead(g: Groups, p: string, keys: seq<string>, fails: set<string>, k: string)
    requires k in keys && forall j <- keys :: j in g ==> j !in fails
    ensures var g' := SetAll(g, p, keys, fails);
      Providers(g', k) == if k in g then [p] + Without(g[k], p) else []
    decreases |keys|
  {
    var g1 := SetOne(g, p, keys[0]);
    if k == keys[0] && k !in keys[1..] {
      SetAllElsewhere(g1, p, keys[1..], fails, k);
    } else {
      SetMakesHead(g1, p, keys[1..], fails, k);
      if k == keys[0] && k in g {
        WithoutHead(Without(g[k], p), p);
        WithoutTwice(g[k], p);
      }
    }
  }

  // ---------------------------------------------------------------------
  // Membership: the lists hold what a plain set per group would
  // ---------------------------------------------------------------------

  function Members(g: Groups, k: string): set<string> {
    set x | x in Providers(g, k)
  }

  /** What a call means for the set of providers of one group. */
  function PlainStep(m: set<string>, op: Op, k: string): set<string> {
    match op
    case Register(p, obsolete, meta, keys) =>
      (if k in obsolete then m - {p} else m) + (if k in keys then {p} else {})
    case Unregister(p, update, keys) => if !update && k in keys then m - {p} else m
    case Set(p, keys) => if k in keys && m != {} then m + {p} else m
  }

  function PlainRun(calls: seq<Call>, k: string): set<string> {
    if calls == [] then {} else PlainStep(PlainRun(calls[..|calls| - 1], k), calls[|calls| - 1].op, k)
  }

  lemma {:induction false} RegisterMembers(g: Groups, p: string, keys: seq<string>, k: string)
    ensures Members(RegisterAll(g, p, keys, {}), k) == Members(g, k) + (if k in keys then {p} else {})
    decreases |keys|
  {
    if keys != [] {
      var g1 := RegisterOne(g, p, keys[0]);
      assert Members(g1, k) == Members(g, k) + (if k == keys[0] then {p} else {});
      RegisterMembers(g1, p, keys[1..], k);
    }
  }

  lemma {:induction false} UnregisterMembers(g: Groups, p: string, keys: seq<string>, k: string)
    ensures Members(UnregisterAll(g, p, keys, {}), k) == Members(g, k) - (if k in keys then {p} else {})
    decreases |keys|
  {
    if keys != [] {
      var g1 := DropOne(g, p, keys[0]);
      assert Members(g1, k) == Members(g, k) - (if k == keys[0] then {p} else {});
      UnregisterMembers(g1, p, keys[1..], k);
    }
  }

  lemma RotateMembers(q: seq<string>)
    ensures q != [] ==> forall x :: x in [q[|q| - 1]] + q[..|q| - 1] <==> x in q
  {
    assert q != [] ==> q == q[..|q| - 1] + [q[|q| - 1]];
  }

  lemma PruneOneMembers(g: Groups, p: string, meta: bool, j: string, k: string)
    requires WellFormed(g)
    ensures Members(PruneOne(g, p, meta, j), k) == Members(g, k) - (if k == j then {p} else {})
  {
    if k == j {
      PrunePromotes(g, p, meta, k);
      RotateMembers(Without(Providers(g, k), p));
    }
  }

  lemma {:induction false} PruneMembers(g: Groups, p: string, meta: bool, keys: seq<string>, k: string)
    requires WellFormed(g)
    ensures Members(PruneAll(g, p, meta, keys), k) == Members(g, k) - (if k in keys then {p} else {})
    decreases |keys|
  {
    if keys != [] {
      PruneOneMembers(g, p, meta, keys[0], k);
      PruneOneKeeps(g, p, meta, keys[0]);
      PruneMembers(PruneOne(g, p, meta, keys[0]), p, meta, keys[1..], k);
    }
  }

  lemma PerformMembers(g: Groups, op: Op, k: string)
    requires WellFormed(g)
    ensures Members(Perform(g, op, {}), k) == PlainStep(Members(g, k), op, k)
  {
    match op {
      case Register(p, obsolete, meta, keys) =>
        PruneMembers(g, p, meta, obsolete, k);
        RegisterMembers(PruneAll(g, p, meta, obsolete), p, keys, k);
      case Unregister(p, update, keys) => UnregisterMembers(g, p, keys, k);
      case Set(p, keys) =>
        if k in keys {
          SetMakesHead(g, p, keys, {}, k);
          if k in g { assert g[k][0] in Members(g, k); }
        } else {
          SetAllElsewhere(g, p, keys, {}, k);
        }
    }
  }

  /** After any run whose links could all be created, a group exists exactly when it
      has providers, and they are the packages that registered and did not leave. */
  lemma {:induction false} RunMembers(calls: seq<Call>, k: string)
    requires forall c <- calls :: c.fails == {}
    ensures Members(Run(map[], calls), k) == PlainRun(calls, k)
    ensures k in Run(map[], calls) <==> PlainRun(calls, k) != {}
  {
    var g := Run(map[], calls);
    if calls != [] {
      var n := |calls| - 1;
      assert calls[n] in calls;
      RunMembers(calls[..n], k);
      RunWellFormed(calls[..n]);
      PerformMembers(Run(map[], calls[..n]), calls[n].op, k);
    }
    RunWellFormed(calls);
    if k in g { assert g[k][0] in Members(g, k); }
  }

  // ---------------------------------------------------------------------
  // The registry beside the installed packages
  // ---------------------------------------------------------------------

  /** The groups and, for each installed package, the groups it provides. */
  datatype System = System(groups: Groups, installed: map<string, seq<string>>)

  datatype Event =
    | Install(p: string, keys: seq<string>, meta: bool)
    | Erase(p: string)
    | Choose(p: string, keys: seq<string>)

  function KeysOf(sys: System, p: string): seq<string> {
    if p in sys.installed then sys.installed[p] else []
  }

  /** The groups of the installed version that the new one does not provide. */
  function Obsolete(sys: System, p: string, keys: seq<string>): (r: seq<string>)
    ensures forall k :: k in r <==> k in KeysOf(sys, p) && k !in keys
  {
    Absent(KeysOf(sys, p), keys)
  }

  function Absent(before: seq<string>, keys: seq<string>): (r: seq<string>)
    ensures forall k :: k in r <==> k in before && k !in keys
  {
    if before == [] then []
    else (if before[0] in keys then [] else [before[0]]) + Absent(before[1..], keys)
  }

  function OpOf(sys: System, e: Event): Op {
    match e
    case Install(p, keys, meta) => Register(p, Obsolete(sys, p, keys), meta, keys)
    case Erase(p) => Unregister(p, false, KeysOf(sys, p))
    case Choose(p, keys) => Set(p, if p in sys.installed then keys else [])
  }

  /** A link could not be created, so the loop of RegisterAll ended early. */
  predicate LinkFails(g: Groups, p: string, keys: seq<string>, fails: set<string>)
    decreases |keys|
  {
    && keys != []
    && var k := keys[0];
      || (k in fails && (k !in g || (g[k] != [] && g[k][0] == p)))
      || LinkFails(RegisterOne(g, p, k), p, keys[1..], fails)
  }

  /** A failed registration ends the transaction before the package database learns of
      the new version, but the groups have been edited. */
  function Happens(sys: System, e: Event, fails: set<string>): System {
    System(Perform(sys.groups, OpOf(sys, e), fails),
      match e
      case Install(p, keys, meta) =>
        if LinkFails(PruneAll(sys.groups, p, meta, Obsolete(sys, p, keys)), p, keys, fails) then sys.installed
        else sys.installed[p := keys]
      case Erase(p) => sys.installed - {p}
      case Choose(p, keys) => sys.installed)
  }

  function History(events: seq<Event>): System {
    if events == [] then System(map[], map[]) else Happens(History(events[..|events| - 1]), events[|events| - 1], {})
  }

  /** Every installed package is a provider of every group it claims. */
  ghost predicate Registered(sys: System) {
    && WellFormed(sys.groups)
    && forall p, k :: p in sys.installed && k in sys.installed[p] ==> p in Providers(sys.groups, k)
  }

  lemma HappensKeeps(sys: System, e: Event)
    requires Registered(sys)
    ensures Registered(Happens(sys, e, {}))
  {
    var op := OpOf(sys, e);
    var sys' := Happens(sys, e, {});
    PerformKeeps(sys.groups, op, {});
    if e.Install? {
      NoLinkFails(PruneAll(sys.groups, e.p, e.meta, Obsolete(sys, e.p, e.keys)), e.p, e.keys);
    }
    forall p, k | p in sys'.installed && k in sys'.installed[p] ensures p in Providers(sys'.groups, k) {
      PerformMembers(sys.groups, op, k);
      assert p in Members(sys'.groups, k) <==> p in PlainStep(Members(sys.groups, k), op, k);
      assert p != e.p ==> p in sys.installed && p in Members(sys.groups, k);
      assert e.Choose? ==> p in sys.installed && p in Members(sys.groups, k);
    }
  }

  /** Without link failures every group of an installed package is registered after any
      history, so no update prunes a group that is not there. */
  lemma {:induction false} HistoryRegistered(events: seq<Event>)
    ensures Registered(History(events))
    ensures forall p, keys, k :: k in Obsolete(History(events), p, keys) ==> k in History(events).groups
  {
    if events != [] {
      HistoryRegistered(events[..|events| - 1]);
      HappensKeeps(History(events[..|events| - 1]), events[|events| - 1]);
    }
    var sys := History(events);
    forall p, keys, k | k in Obsolete(sys, p, keys) ensures k in sys.groups {
      assert p in Providers(sys.groups, k);
    }
  }

  /** One failed link is enough to break this: an update that drops the group h and
      cannot link the group g leaves h pruned and the old version recorded, so the same
      update, tried again on that database, prunes a group that is not there. */
  lemma FailedUpdateLosesGroup()
    ensures var sys := Happens(History([Install("a", ["g", "h"], false)]), Install("a", ["g"], false), {"g"});
      "h" in Obsolete(sys, "a", ["g"]) && "h" !in sys.groups
  {
    var first := Install("a", ["g", "h"], false);
    var events: seq<Event> := [first];
    var sys := History(events);
    assert events[..|events| - 1] == [];
    assert History(events[..|events| - 1]) == System(map[], map[]);
    assert sys == Happens(System(map[], map[]), first, {});
    TwoGroups();
    assert sys.groups == map["g" := ["a"], "h" := ["a"]];
    var drop := Obsolete(sys, "a", ["g"]);
    assert KeysOf(sys, "a") == ["g", "h"];
    DropsH();
    assert drop == ["h"];
    var g1 := PruneAll(sys.groups, "a", false, drop);
    assert g1 == map["g" := ["a"]] by { PruneH(); }
    assert LinkFails(g1, "a", ["g"], {"g"});
    assert RegisterAll(g1, "a", ["g"], {"g"}) == g1;
  }

  lemma TwoGroups()
    ensures RegisterAll(PruneAll(map[], "a", false, []), "a", ["g", "h"], {}) == map["g" := ["a"], "h" := ["a"]]
    ensures !LinkFails(PruneAll(map[], "a", false, []), "a", ["g", "h"], {})
  {
    var none: Groups := map[];
    var one: Groups := map["g" := ["a"]];
    assert ["g", "h"][1..] == ["h"] && ["h"][1..] == [];
    assert RegisterOne(none, "a", "g") == one;
    assert RegisterOne(one, "a", "h") == map["g" := ["a"], "h" := ["a"]];
  }

  lemma DropsH()
    ensures Absent(["g", "h"], ["g"]) == ["h"] && Absent([], ["g", "h"]) == []
  {
    assert ["g", "h"][1..] == ["h"] && ["h"][1..] == [];
    assert Absent(["h"], ["g"]) == ["h"];
  }

  lemma PruneH()
    ensures PruneAll(map["g" := ["a"], "h" := ["a"]], "a", false, ["h"]) == map["g" := ["a"]]
  {
    var both: Groups := map["g" := ["a"], "h" := ["a"]];
    assert ["h"][1..] == [];
    assert Without(["a"], "a") == [] by { assert ["a"][1..] == []; }
    assert DropOne(both, "a", "h") == both - {"h"};
    assert both - {"h"} == map["g" := ["a"]];
  }

  lemma {:induction false} NoLinkFails(g: Groups, p: string, keys: seq<string>)
    ensures !LinkFails(g, p, keys, {})
    decreases |keys|
  {
    if keys != [] {
      NoLinkFails(RegisterOne(g, p, keys[0]), p, keys[1..]);
    }
  }
}
