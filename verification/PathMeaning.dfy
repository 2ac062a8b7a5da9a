/** What a path means, apart from any notion of cleaning: the directory it leads to from
    another, where "." stays, ".." goes up (and stays at the root) and a name goes down.
    Cleaning keeps that meaning, and two paths have the same meaning exactly when they
    clean to the same text. */
module PathMeaning {
  import opened PathSpec

  /** One step from the directory with these names below the root. */
  function Step(dir: seq<string>, e: string): seq<string> {
    if e == "" || e == "." then dir
    else if e == ".." then if dir == [] then [] else dir[..|dir| - 1]
    else dir + [e]
  }

  function Walk(dir: seq<string>, es: seq<string>): seq<string>
    decreases |es|
  {
    if es == [] then dir else Step(Walk(dir, es[..|es| - 1]), es[|es| - 1])
  }

  /** Where the path leads from the directory `dir`. */
  function Resolve(dir: seq<string>, s: string): seq<string> {
    Walk(if Rooted(s) then [] else dir, Split(s))
  }

  lemma WalkAppend(dir: seq<string>, es: seq<string>, e: string)
    ensures Walk(dir, es + [e]) == Step(Walk(dir, es), e)
  {
    assert (es + [e])[..|es|] == es;
  }

  lemma {:induction false} WalkCons(dir: seq<string>, e: string, es: seq<string>)
    ensures Walk(dir, [e] + es) == Walk(Step(dir, e), es)
    decreases |es|
  {
    if es == [] {
      WalkAppend(dir, [], e);
      assert [] + [e] == [e] + es;
    } else {
      var n := |es| - 1;
      WalkCons(dir, e, es[..n]);
      assert ([e] + es)[..n + 1] == [e] + es[..n];
    }
  }

  // ---------------------------------------------------------------------
  // Cleaning keeps the meaning
  // ---------------------------------------------------------------------

  /** Pushing an element onto a normal stack is one more step. */
  lemma PushMeans(dir: seq<string>, st: seq<string>, e: string, rooted: bool, k: nat)
    requires Shape(st, k) && (rooted ==> k == 0 && dir == [])
    ensures Walk(dir, Push(st, e, rooted)) == Step(Walk(dir, st), e)
  {
    var n := |st| - 1;
    if e == ".." && st != [] && st[n] != ".." {
      assert Plain(st[n]);
      assert st == st[..n] + [st[n]];
      WalkAppend(dir, st[..n], st[n]);
    } else if e != "" && e != "." && !(e == ".." && rooted) {
      WalkAppend(dir, st, e);
    }
  }

  lemma {:induction false} FoldMeans(dir: seq<string>, st: seq<string>, es: seq<string>, rooted: bool, k: nat)
    requires Shape(st, k) && (rooted ==> k == 0 && dir == []) && forall i :: 0 <= i < |es| ==> SlashFree(es[i])
    ensures Walk(dir, Fold(st, es, rooted)) == Walk(Walk(dir, st), es)
    decreases |es|
  {
    if es != [] {
      PushMeans(dir, st, es[0], rooted, k);
      var k1 := PushShape(st, es[0], rooted, k);
      FoldMeans(dir, Push(st, es[0], rooted), es[1..], rooted, k1);
      WalkCons(Walk(dir, st), es[0], es[1..]);
      assert [es[0]] + es[1..] == es;
    }
  }

  /** The element stack of a path means what the path means. */
  lemma ElementsMean(dir: seq<string>, s: string)
    ensures Resolve(dir, s) == Walk(if Rooted(s) then [] else dir, Elements(s))
  {
    SplitSlashFree(s);
    FoldMeans(if Rooted(s) then [] else dir, [], Split(s), Rooted(s), 0);
  }

  /** Wherever one stands, the cleaned path leads where the path leads. */
  lemma CleanKeepsMeaning(dir: seq<string>, s: string)
    ensures Resolve(dir, Clean(s)) == Resolve(dir, s)
  {
    ElementsMean(dir, s);
    ElementsMean(dir, Clean(s));
    CleanElements(s);
    CleanIdempotent(s);
  }

  // ---------------------------------------------------------------------
  // One clean path for each meaning
  // ---------------------------------------------------------------------

  /** n directories of a name that no path element has. */
  function Deep(n: nat): seq<string> {
    seq(n, i => "/")
  }

  /** A normal stack goes up k times and then down its names. */
  lemma {:induction false} ShapeMeans(n: nat, st: seq<string>, k: nat)
    requires Shape(st, k) && k <= n
    ensures Walk(Deep(n), st) == Deep(n - k) + st[k..]
    decreases |st|
  {
    if st != [] {
      var m := |st| - 1;
      if k == |st| {
        ShapeMeans(n, st[..m], k - 1);
      } else {
        ShapeMeans(n, st[..m], k);
        assert st[..m][k..] + [st[m]] == st[k..];
        assert Plain(st[m]);
      }
    }
  }

  lemma PlainNames(st: seq<string>, k: nat, i: nat)
    requires Shape(st, k) && k <= i < |st|
    ensures st[i] != "/"
  {
    assert Plain(st[i]);
    assert '/' in "/";
  }

  lemma SameNames(n: nat, st: seq<string>, k: nat, tt: seq<string>, j: nat)
    requires Shape(st, k) && Shape(tt, j) && k <= j <= n && Deep(n - k) + st[k..] == Deep(n - j) + tt[j..]
    ensures st == tt
  {
    var a, b := Deep(n - k) + st[k..], Deep(n - j) + tt[j..];
    if k < j {
      assert a[n - j] == "/";
      assert n - j < |b|;
      assert b[n - j] == tt[j..][0] == tt[j];
      PlainNames(tt, j, j);
    }
    assert st[k..] == a[n - k..] == b[n - j..] == tt[j..];
    assert st == st[..k] + st[k..] && tt == tt[..j] + tt[j..] && st[..k] == tt[..j];
  }

  /** Two paths clean to the same text exactly when they lead to the same place from every
      directory: a cleaned path is the canonical name of its meaning. */
  lemma CleanCanonical(s: string, t: string)
    ensures Clean(s) == Clean(t) <==> forall dir :: Resolve(dir, s) == Resolve(dir, t)
  {
    if Clean(s) == Clean(t) {
      forall dir ensures Resolve(dir, s) == Resolve(dir, t) {
        CleanKeepsMeaning(dir, s);
        CleanKeepsMeaning(dir, t);
      }
    }
    if forall dir :: Resolve(dir, s) == Resolve(dir, t) {
      SameMeaning(s, t);
    }
  }

  lemma MeaningAt(n: nat, s: string, k: nat)
    requires Shape(Elements(s), k) && (Rooted(s) ==> k == 0) && k <= n
    ensures Resolve(Deep(n), s) == if Rooted(s) then Elements(s) else Deep(n - k) + Elements(s)[k..]
  {
    ElementsMean(Deep(n), s);
    ShapeMeans(if Rooted(s) then 0 else n, Elements(s), k);
    assert Rooted(s) ==> Deep(0) == [] && [] + Elements(s)[0..] == Elements(s);
  }

  /** A rooted path does not lead into the directory one comes from. */
  lemma RootedApart(n: nat, s: string, k: nat, t: string, j: nat)
    requires Shape(Elements(s), k) && Rooted(s) && k == 0 && Shape(Elements(t), j) && !Rooted(t) && j < n
    ensures Resolve(Deep(n), s) != Resolve(Deep(n), t)
  {
    MeaningAt(n, s, 0);
    MeaningAt(n, t, j);
    var r := Resolve(Deep(n), t);
    assert r[0] == "/";
    forall i | 0 <= i < |Elements(s)| ensures Elements(s)[i] != "/" {
      PlainNames(Elements(s), 0, i);
    }
  }

  lemma SameMeaning(s: string, t: string)
    requires forall dir :: Resolve(dir, s) == Resolve(dir, t)
    ensures Clean(s) == Clean(t)
  {
    ElementsNormal(s);
    ElementsNormal(t);
    var k: nat :| Shape(Elements(s), k) && (Rooted(s) ==> k == 0);
    var j: nat :| Shape(Elements(t), j) && (Rooted(t) ==> j == 0);
    var n := k + j + 1;
    assert Rooted(s) == Rooted(t) by {
      assert Rooted(s) && !Rooted(t) ==> Resolve(Deep(n), s) != Resolve(Deep(n), t) by {
        if Rooted(s) && !Rooted(t) { RootedApart(n, s, k, t, j); }
      }
      assert Rooted(t) && !Rooted(s) ==> Resolve(Deep(n), t) != Resolve(Deep(n), s) by {
        if Rooted(t) && !Rooted(s) { RootedApart(n, t, j, s, k); }
      }
    }
    MeaningAt(n, s, k);
    MeaningAt(n, t, j);
    assert Resolve(Deep(n), s) == Resolve(Deep(n), t);
    if !Rooted(s) {
      if k <= j {
        SameNames(n, Elements(s), k, Elements(t), j);
      } else {
        SameNames(n, Elements(t), j, Elements(s), k);
      }
    }
  }
}
