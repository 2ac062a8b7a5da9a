/** lib/transaction_check_shlibs.c: does every shared library that the system needs after
    the transaction have a provider there? */
module ShlibCheck {
  import opened Wrappers

  datatype Pkg = Pkg(pkgver: string, provided: seq<string>, required: seq<string>)

  datatype Kind = Install | Reinstall | Update | Configure | Remove | Hold

  /** A transaction entry; `name` is None when the property is missing. */
  datatype Entry = Entry(name: Option<string>, kind: Kind, pkg: Pkg) {
    predicate Stays() { kind != Hold && kind != Remove }
  }

  datatype Missing = Missing(pkgver: string, shlib: string)

  type Db = map<string, Pkg>

  /** Keys that start with "_XBPS_" are not packages. */
  predicate Internal(name: string) {
    |name| >= 6 && name[..6] == "_XBPS_"
  }

  function Packages(db: Db): Db {
    map n | n in db && !Internal(n) :: db[n]
  }

  // ---------------------------------------------------------------------
  // The system after the transaction
  // ---------------------------------------------------------------------

  function Apply(sys: Db, e: Entry): Db {
    if e.kind == Hold || e.name == None then sys
    else if e.kind == Remove then sys - {e.name.value}
    else sys[e.name.value := e.pkg]
  }

  function ApplyAll(sys: Db, pkgs: seq<Entry>): Db {
    if pkgs == [] then sys else Apply(ApplyAll(sys, pkgs[..|pkgs| - 1]), pkgs[|pkgs| - 1])
  }

  function After(db: Db, pkgs: seq<Entry>): Db {
    ApplyAll(Packages(db), pkgs)
  }

  predicate Named(pkgs: seq<Entry>) {
    forall e <- pkgs :: e.kind != Hold ==> e.name.Some?
  }

  /** One entry per package name, as the transaction store keeps it. */
  predicate OnePerName(pkgs: seq<Entry>) {
    forall i, j :: 0 <= i < j < |pkgs| && pkgs[i].kind != Hold && pkgs[j].kind != Hold ==> pkgs[i].name != pkgs[j].name
  }

  ghost function Provided(sys: Db): set<string> {
    set n, l | n in sys && l in sys[n].provided :: l
  }

  /** Every required library is provided. */
  ghost predicate Closed(sys: Db) {
    forall n, l :: n in sys && l in sys[n].required ==> l in Provided(sys)
  }

  ghost predicate Lacks(sys: Db, m: Missing) {
    exists n :: n in sys && sys[n].pkgver == m.pkgver && m.shlib in sys[n].required && m.shlib !in Provided(sys)
  }

  // ---------------------------------------------------------------------
  // What the passes look at
  // ---------------------------------------------------------------------

  function Seen(pkgs: seq<Entry>): set<string> {
    set e | e in pkgs && e.kind != Hold && e.name.Some? :: e.name.value
  }

  /** p is a package that the passes look at: an entry that stays, or an installed
      package that the transaction does not name. */
  ghost predicate LookedAt(db: Db, pkgs: seq<Entry>, p: Pkg) {
    || (exists e <- pkgs :: e.Stays() && e.pkg == p)
    || (exists n :: n in db && !Internal(n) && n !in Seen(pkgs) && db[n] == p)
  }

  /** A name the transaction does not touch is as before. */
  lemma {:induction false} AfterUntouched(sys: Db, pkgs: seq<Entry>, n: string)
    requires n !in Seen(pkgs)
    ensures n in ApplyAll(sys, pkgs) <==> n in sys
    ensures n in sys ==> ApplyAll(sys, pkgs)[n] == sys[n]
  {
    if pkgs != [] {
      var k := |pkgs| - 1;
      assert pkgs[k] in pkgs;
      assert forall e <- pkgs[..k] :: e in pkgs;
      AfterUntouched(sys, pkgs[..k], n);
    }
  }

  /** The one entry of a name decides about it. */
  lemma {:induction false} AfterTouched(sys: Db, pkgs: seq<Entry>, i: nat)
    requires OnePerName(pkgs) && i < |pkgs| && pkgs[i].kind != Hold && pkgs[i].name.Some?
    ensures var n := pkgs[i].name.value;
      && (n in ApplyAll(sys, pkgs) <==> pkgs[i].Stays())
      && (pkgs[i].Stays() ==> ApplyAll(sys, pkgs)[n] == pkgs[i].pkg)
  {
    var k := |pkgs| - 1;
    if i < k {
      assert pkgs[..k][i] == pkgs[i];
      AfterTouched(sys, pkgs[..k], i);
      assert pkgs[k].kind != Hold ==> pkgs[i].name != pkgs[k].name;
    }
  }

  lemma AfterAt(db: Db, pkgs: seq<Entry>, n: string)
    requires Named(pkgs) && OnePerName(pkgs)
    ensures n !in Seen(pkgs) ==>
      (n in After(db, pkgs) <==> n in Packages(db)) && (n in Packages(db) ==> After(db, pkgs)[n] == db[n])
    ensures forall e <- pkgs :: e.kind != Hold && e.name.value == n ==>
      (n in After(db, pkgs) <==> e.Stays()) && (e.Stays() ==> After(db, pkgs)[n] == e.pkg)
  {
    if n !in Seen(pkgs) {
      AfterUntouched(Packages(db), pkgs, n);
    }
    forall e | e in pkgs && e.kind != Hold && e.name.value == n
      ensures (n in After(db, pkgs) <==> e.Stays()) && (e.Stays() ==> After(db, pkgs)[n] == e.pkg)
    {
      var i :| 0 <= i < |pkgs| && pkgs[i] == e;
      AfterTouched(Packages(db), pkgs, i);
    }
  }

  /** The passes look at the packages of the system after the transaction. */
  lemma LookedAtIsAfter(db: Db, pkgs: seq<Entry>, p: Pkg)
    requires Named(pkgs) && OnePerName(pkgs)
    ensures LookedAt(db, pkgs, p) <==> exists n :: n in After(db, pkgs) && After(db, pkgs)[n] == p
  {
    var sys := After(db, pkgs);
    if e :| e in pkgs && e.Stays() && e.pkg == p {
      AfterAt(db, pkgs, e.name.value);
      assert sys[e.name.value] == p;
    }
    if n :| n in db && !Internal(n) && n !in Seen(pkgs) && db[n] == p {
      AfterAt(db, pkgs, n);
      assert sys[n] == p;
    }
    if n :| n in sys && sys[n] == p {
      AfterAt(db, pkgs, n);
      if n in Seen(pkgs) {
        var e :| e in pkgs && e.kind != Hold && e.name.Some? && e.name.value == n;
        assert e.Stays() && e.pkg == p;
      }
    }
  }

  ghost predicate Offers(db: Db, pkgs: seq<Entry>, l: string) {
    exists p :: LookedAt(db, pkgs, p) && l in p.provided
  }

  ghost predicate Unresolved(db: Db, pkgs: seq<Entry>, m: Missing) {
    exists p :: LookedAt(db, pkgs, p) && p.pkgver == m.pkgver && m.shlib in p.required && !Offers(db, pkgs, m.shlib)
  }

  lemma OffersProvided(db: Db, pkgs: seq<Entry>, l: string)
    requires Named(pkgs) && OnePerName(pkgs)
    ensures Offers(db, pkgs, l) <==> l in Provided(After(db, pkgs))
  {
    var sys := After(db, pkgs);
    if p :| LookedAt(db, pkgs, p) && l in p.provided {
      LookedAtIsAfter(db, pkgs, p);
    }
    if n :| n in sys && l in sys[n].provided {
      LookedAtIsAfter(db, pkgs, sys[n]);
      assert LookedAt(db, pkgs, sys[n]);
    }
  }

  /** What the check reports is what the system after the transaction lacks. */
  lemma UnresolvedIsLacking(db: Db, pkgs: seq<Entry>, m: Missing)
    requires Named(pkgs) && OnePerName(pkgs)
    ensures Unresolved(db, pkgs, m) <==> Lacks(After(db, pkgs), m)
  {
    var sys := After(db, pkgs);
    OffersProvided(db, pkgs, m.shlib);
    if p :| LookedAt(db, pkgs, p) && p.pkgver == m.pkgver && m.shlib in p.required && !Offers(db, pkgs, m.shlib) {
      LookedAtIsAfter(db, pkgs, p);
    }
    if n :| n in sys && sys[n].pkgver == m.pkgver && m.shlib in sys[n].required && m.shlib !in Provided(sys) {
      LookedAtIsAfter(db, pkgs, sys[n]);
      assert LookedAt(db, pkgs, sys[n]);
    }
  }

  /** Nothing is missing exactly when the system after the transaction is closed. */
  lemma NoneMissingIffClosed(db: Db, pkgs: seq<Entry>, missing: seq<Missing>)
    requires Named(pkgs) && OnePerName(pkgs)
    requires forall m :: m in missing <==> Unresolved(db, pkgs, m)
    ensures missing == [] <==> Closed(After(db, pkgs))
  {
    var sys := After(db, pkgs);
    if missing == [] {
      forall n, l | n in sys && l in sys[n].required ensures l in Provided(sys) {
        UnresolvedIsLacking(db, pkgs, Missing(sys[n].pkgver, l));
      }
    } else {
      assert missing[0] in missing;
      UnresolvedIsLacking(db, pkgs, missing[0]);
    }
  }

  // ---------------------------------------------------------------------
  // The passes
  // ---------------------------------------------------------------------

  class Context {
    var entries: set<string>
    var seen: set<string>
    var missing: seq<Missing>

    constructor ()
      ensures entries == {} && seen == {} && missing == []
    {
      entries, seen, missing := {}, {}, [];
    }

    /** lib/transaction_check_shlibs.c:87-101. */
    method CollectArray(shlibs: seq<string>)
      modifies this`entries
      ensures entries == old(entries) + set l <- shlibs
    {
      for i := 0 to |shlibs|
        invariant entries == old(entries) + set l <- shlibs[..i]
      {
        assert shlibs[..i + 1] == shlibs[..i] + [shlibs[i]];
        entries := entries + {shlibs[i]};
      }
      assert shlibs[..|shlibs|] == shlibs;
    }

    /** lib/transaction_check_shlibs.c:121-144: the transaction's part. */
    method CollectTransaction(pkgs: seq<Entry>) returns (ok: bool)
      requires seen == {} && entries == {}
      modifies this`entries, this`seen
      ensures ok == Named(pkgs)
      ensures ok ==> seen == Seen(pkgs)
      ensures ok ==> forall l :: l in entries <==> exists e <- pkgs :: e.Stays() && l in e.pkg.provided
    {
      for i := 0 to |pkgs|
        invariant Named(pkgs[..i]) && seen == Seen(pkgs[..i])
        invariant forall l :: l in entries <==> exists e <- pkgs[..i] :: e.Stays() && l in e.pkg.provided
      {
        var e := pkgs[i];
        assert pkgs[..i + 1] == pkgs[..i] + [e];
        assert e in pkgs;
        if e.kind == Hold {
          continue;
        }
        if e.name == None {
          return false;
        }
        seen := seen + {e.name.value};
        if e.kind == Remove {
          continue;
        }
        CollectArray(e.pkg.provided);
      }
      assert pkgs[..|pkgs|] == pkgs;
      return true;
    }

    /** lib/transaction_check_shlibs.c:146-173: the installed packages' part. */
    method CollectInstalled(db: Db, pkgs: seq<Entry>)
      requires seen == Seen(pkgs)
      requires forall l :: l in entries <==> exists e <- pkgs :: e.Stays() && l in e.pkg.provided
      modifies this`entries
      ensures forall l :: l in entries <==> Offers(db, pkgs, l)
    {
      ghost var before := entries;
      var todo := db.Keys;
      while todo != {}
        invariant todo <= db.Keys && before <= entries
        invariant forall l :: l in entries <==> (
          l in before || exists n :: n in db && n !in todo && !Internal(n) && n !in seen && l in db[n].provided)
        decreases todo
      {
        var n :| n in todo;
        todo := todo - {n};
        if Internal(n) || n in seen {
          continue;
        }
        CollectArray(db[n].provided);
      }
      forall l ensures l in entries <==> Offers(db, pkgs, l) {
        if l in before {
          var e :| e in pkgs && e.Stays() && l in e.pkg.provided;
          assert LookedAt(db, pkgs, e.pkg);
        } else if l in entries {
          var n :| n in db && !Internal(n) && n !in seen && l in db[n].provided;
          assert LookedAt(db, pkgs, db[n]);
        }
      }
    }

    /** lib/transaction_check_shlibs.c:196-214 and 242-260: one package's requirements. */
    method CheckArray(p: Pkg)
      modifies this`missing
      ensures forall m :: m in missing <==> (m in old(missing)
        || (m.pkgver == p.pkgver && m.shlib in p.required && m.shlib !in entries))
    {
      for i := 0 to |p.required|
        invariant forall m :: m in missing <==> (m in old(missing)
          || (m.pkgver == p.pkgver && m.shlib in p.required[..i] && m.shlib !in entries))
      {
        var l := p.required[i];
        assert p.required[..i + 1] == p.required[..i] + [l];
        if l !in entries {
          missing := missing + [Missing(p.pkgver, l)];
        }
      }
      assert p.required[..|p.required|] == p.required;
    }

    /** lib/transaction_check_shlibs.c:179-265. */
    method CheckShlibs(db: Db, pkgs: seq<Entry>)
      requires seen == Seen(pkgs) && missing == []
      requires forall l :: l in entries <==> Offers(db, pkgs, l)
      modifies this`missing
      ensures forall m :: m in missing <==> Unresolved(db, pkgs, m)
    {
      for i := 0 to |pkgs|
        invariant forall m :: m in missing <==> (m.shlib !in entries
          && exists e <- pkgs[..i] :: e.Stays() && m.pkgver == e.pkg.pkgver && m.shlib in e.pkg.required)
      {
        assert pkgs[..i + 1] == pkgs[..i] + [pkgs[i]];
        if pkgs[i].kind == Hold || pkgs[i].kind == Remove {
          continue;
        }
        CheckArray(pkgs[i].pkg);
      }
      assert pkgs[..|pkgs|] == pkgs;
      ghost var before := missing;
      var todo := db.Keys;
      while todo != {}
        invariant todo <= db.Keys
        invariant forall m :: m in missing <==> (m in before
          || exists n :: (n in db && n !in todo && !Internal(n) && n !in seen
             && m.pkgver == db[n].pkgver && m.shlib in db[n].required && m.shlib !in entries))
        decreases todo
      {
        var n :| n in todo;
        todo := todo - {n};
        if Internal(n) || n in seen {
          continue;
        }
        CheckArray(db[n]);
      }
    }
  }

  /** lib/transaction_check_shlibs.c:267-297. */
  method CheckTransaction(db: Db, pkgs: seq<Entry>) returns (ok: bool, missing: seq<Missing>)
    ensures ok == Named(pkgs)
    ensures ok ==> forall m :: m in missing <==> Unresolved(db, pkgs, m)
    ensures ok && OnePerName(pkgs) ==> (missing == [] <==> Closed(After(db, pkgs)))
    ensures ok && OnePerName(pkgs) ==> forall m :: m in missing <==> Lacks(After(db, pkgs), m)
  {
    var ctx := new Context();
    ok := ctx.CollectTransaction(pkgs);
    if !ok {
      return false, [];
    }
    ctx.CollectInstalled(db, pkgs);
    ctx.CheckShlibs(db, pkgs);
    missing := ctx.missing;
    if OnePerName(pkgs) {
      NoneMissingIffClosed(db, pkgs, missing);
      forall m ensures Unresolved(db, pkgs, m) <==> Lacks(After(db, pkgs), m) {
        UnresolvedIsLacking(db, pkgs, m);
      }
    }
  }
}
