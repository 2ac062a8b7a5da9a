/** Lexical paths: splitting on '/', folding the elements over a stack and joining
    them again. This is what cleaning a path means. */
module PathSpec {

  // ---------------------------------------------------------------------
  // Splitting and joining
  // ---------------------------------------------------------------------

  function Split(s: string): (r: seq<string>)
    ensures |r| > 0
  {
    if s == "" then [""]
    else if s[0] == '/' then [""] + Split(s[1..])
    else var r := Split(s[1..]); [[s[0]] + r[0]] + r[1..]
  }

  function Join(es: seq<string>): string {
    if es == [] then "" else if |es| == 1 then es[0] else es[0] + "/" + Join(es[1..])
  }

  predicate SlashFree(e: string) {
    '/' !in e
  }

  lemma {:induction false} SplitSlash(a: string, b: string)
    ensures Split(a + "/" + b) == Split(a) + Split(b)
  {
    var s := a + "/" + b;
    if a == "" {
      assert s[1..] == b;
    } else {
      assert s[1..] == a[1..] + "/" + b;
      SplitSlash(a[1..], b);
    }
  }

  lemma {:induction false} SplitElement(e: string)
    requires SlashFree(e)
    ensures Split(e) == [e]
  {
    if e != "" {
      assert e[0] in e;
      assert SlashFree(e[1..]) by {
        assert forall c :: c in e[1..] ==> c in e;
      }
      SplitElement(e[1..]);
      assert [e[0]] + e[1..] == e;
    }
  }

  /** An element followed by the end or a slash splits off whole. */
  lemma SplitHead(e: string, t: string)
    requires SlashFree(e) && (t == "" || t[0] == '/')
    ensures Split(t)[0] == "" && Split(e + t) == [e] + Split(t)[1..]
  {
    SplitElement(e);
    if t == "" {
      assert e + t == e;
    } else {
      assert e + t == e + "/" + t[1..];
      assert t == "" + "/" + t[1..];
      SplitSlash(e, t[1..]);
    }
  }

  lemma {:induction false} JoinAppend(es: seq<string>, e: string)
    ensures Join(es + [e]) == if es == [] then e else Join(es) + "/" + e
  {
    if |es| > 1 {
      assert (es + [e])[1..] == es[1..] + [e];
      JoinAppend(es[1..], e);
      assert es[0] + "/" + (Join(es[1..]) + "/" + e) == es[0] + "/" + Join(es[1..]) + "/" + e;
    } else if |es| == 1 {
      assert (es + [e])[1..] == [e];
    } else {
      assert es + [e] == [e];
    }
  }

  lemma SplitJoinStep(e: string, rest: seq<string>, text: string)
    requires SlashFree(e) && Split(text) == rest
    ensures Split(e + "/" + text) == [e] + rest
  {
    SplitSlash(e, text);
    SplitElement(e);
  }

  lemma {:induction false} SplitJoin(es: seq<string>)
    requires es != [] && forall i :: 0 <= i < |es| ==> SlashFree(es[i])
    ensures Split(Join(es)) == es
    decreases |es|
  {
    if |es| == 1 {
      SplitElement(es[0]);
    } else {
      var rest := es[1..];
      SplitJoin(rest);
      SplitJoinStep(es[0], rest, Join(rest));
      assert es == [es[0]] + rest;
    }
  }

  // ---------------------------------------------------------------------
  // The element stack
  // ---------------------------------------------------------------------

  /** One element: "" and "." do nothing, ".." drops an element, stays as a leading
      run of an unrooted path, or vanishes at the root. */
  function Push(st: seq<string>, e: string, rooted: bool): seq<string> {
    if e == "" || e == "." then st
    else if e == ".." then
      if st != [] && st[|st| - 1] != ".." then st[..|st| - 1]
      else if rooted then st
      else st + [e]
    else st + [e]
  }

  function Fold(st: seq<string>, es: seq<string>, rooted: bool): seq<string>
    decreases |es|
  {
    if es == [] then st else Fold(Push(st, es[0], rooted), es[1..], rooted)
  }

  lemma {:induction false} FoldConcat(st: seq<string>, a: seq<string>, b: seq<string>, rooted: bool)
    ensures Fold(st, a + b, rooted) == Fold(Fold(st, a, rooted), b, rooted)
    decreases |a|
  {
    if a == [] {
      assert a + b == b;
    } else {
      assert (a + b)[1..] == a[1..] + b;
      FoldConcat(Push(st, a[0], rooted), a[1..], b, rooted);
    }
  }

  predicate Rooted(s: string) {
    s != "" && s[0] == '/'
  }

  /** The stack as text, before an empty result becomes ".". */
  function Text(rooted: bool, st: seq<string>): string {
    if rooted then "/" + Join(st) else Join(st)
  }

  function Render(rooted: bool, st: seq<string>): string {
    if !rooted && st == [] then "." else Text(rooted, st)
  }

  function Elements(s: string): seq<string> {
    Fold([], Split(s), Rooted(s))
  }

  /** The shortest lexical equivalent of a path. */
  function Clean(s: string): string {
    Render(Rooted(s), Elements(s))
  }

  // ---------------------------------------------------------------------
  // Clean paths
  // ---------------------------------------------------------------------

  predicate Plain(e: string) {
    e != "" && e != "." && e != ".." && SlashFree(e)
  }

  /** The first k elements are ".." and the others plain. */
  ghost predicate Shape(st: seq<string>, k: nat) {
    && k <= |st|
    && (forall i :: 0 <= i < k ==> st[i] == "..")
    && (forall i :: k <= i < |st| ==> Plain(st[i]))
  }

  /** ".." occurs only as a leading run, and never under a root. */
  ghost predicate Normal(rooted: bool, st: seq<string>) {
    exists k: nat :: Shape(st, k) && (rooted ==> k == 0)
  }

  lemma PushShape(st: seq<string>, e: string, rooted: bool, k: nat) returns (k': nat)
    requires Shape(st, k) && (rooted ==> k == 0) && SlashFree(e)
    ensures Shape(Push(st, e, rooted), k') && (rooted ==> k' == 0)
    ensures k' == if e == ".." && k == |st| && !rooted then k + 1 else k
  {
    k' := if e == ".." && k == |st| && !rooted then k + 1 else k;
  }

  lemma {:induction false} FoldShape(st: seq<string>, es: seq<string>, rooted: bool, k: nat) returns (k': nat)
    requires Shape(st, k) && (rooted ==> k == 0) && forall i :: 0 <= i < |es| ==> SlashFree(es[i])
    ensures Shape(Fold(st, es, rooted), k') && (rooted ==> k' == 0)
    decreases |es|
  {
    if es == [] {
      k' := k;
    } else {
      var k1 := PushShape(st, es[0], rooted, k);
      k' := FoldShape(Push(st, es[0], rooted), es[1..], rooted, k1);
    }
  }

  lemma {:induction false} SplitSlashFree(s: string)
    ensures forall i :: 0 <= i < |Split(s)| ==> SlashFree(Split(s)[i])
  {
    if s != "" {
      SplitSlashFree(s[1..]);
    }
  }

  lemma ElementsNormal(s: string)
    ensures Normal(Rooted(s), Elements(s))
  {
    SplitSlashFree(s);
    var k := FoldShape([], Split(s), Rooted(s), 0);
  }

  /** Folding a normal stack onto nothing gives it back. */
  lemma {:induction false} FoldNormal(st: seq<string>, rest: seq<string>, rooted: bool, k: nat)
    requires Shape(st + rest, k) && (rooted ==> k == 0)
    ensures Fold(st, rest, rooted) == st + rest
    decreases |rest|
  {
    if rest == [] {
      assert st + rest == st;
    } else {
      assert (st + rest)[|st|] == rest[0];
      assert st + rest == (st + [rest[0]]) + rest[1..];
      if st != [] {
        assert (st + rest)[|st| - 1] == st[|st| - 1];
      }
      assert Push(st, rest[0], rooted) == st + [rest[0]];
      FoldNormal(st + [rest[0]], rest[1..], rooted, k);
    }
  }

  lemma ShapeSlashFree(st: seq<string>, k: nat)
    requires Shape(st, k)
    ensures forall i :: 0 <= i < |st| ==> SlashFree(st[i]) && st[i] != ""
  {
    forall i | 0 <= i < |st| ensures SlashFree(st[i]) && st[i] != "" {
      assert i < k ==> st[i] == "..";
    }
  }

  /** The elements of a rendered normal stack are the stack. */
  lemma RenderElements(rooted: bool, st: seq<string>)
    requires Normal(rooted, st)
    ensures Rooted(Render(rooted, st)) == rooted
    ensures Elements(Render(rooted, st)) == st
  {
    var k: nat :| Shape(st, k) && (rooted ==> k == 0);
    ShapeSlashFree(st, k);
    var s := Render(rooted, st);
    if st == [] {
      if rooted {
        assert s == "/" && s[1..] == "";
        assert Split(s) == ["", ""];
        assert Fold([], ["", ""], true) == Fold([], [""], true);
      } else {
        SplitElement(".");
        assert s == ".";
      }
    } else {
      SplitJoin(st);
      assert [] + st == st;
      FoldNormal([], st, rooted, k);
      if rooted {
        assert s[1..] == Join(st);
        assert Split(s) == [""] + st;
        assert ([""] + st)[1..] == st;
      } else {
        JoinStart(st);
      }
    }
  }

  lemma JoinStart(st: seq<string>)
    requires st != [] && st[0] != "" && SlashFree(st[0])
    ensures Join(st) != "" && Join(st)[0] != '/'
  {
    assert st[0][0] in st[0];
    assert Join(st)[0] == st[0][0];
  }

  /** Cleaning is idempotent. */
  lemma CleanIdempotent(s: string)
    ensures Clean(Clean(s)) == Clean(s) && Rooted(Clean(s)) == Rooted(s)
  {
    ElementsNormal(s);
    RenderElements(Rooted(s), Elements(s));
  }

  /** A cleaned path has no empty and no "." element, and ".." only as a leading run
      of an unrooted path. */
  lemma CleanElements(s: string)
    ensures Elements(Clean(s)) == Elements(s) && Normal(Rooted(s), Elements(s))
    ensures Split(Clean(s)) ==
      if Rooted(s) then [""] + (if Elements(s) == [] then [""] else Elements(s))
      else if Elements(s) == [] then ["."] else Elements(s)
  {
    ElementsNormal(s);
    RenderElements(Rooted(s), Elements(s));
    var st := Elements(s);
    var k: nat :| Shape(st, k);
    ShapeSlashFree(st, k);
    if st != [] {
      SplitJoin(st);
      if Rooted(s) {
        assert Clean(s)[1..] == Join(st);
      }
    } else if !Rooted(s) {
      SplitElement(".");
    } else {
      assert Clean(s)[1..] == "";
    }
  }

  // ---------------------------------------------------------------------
  // Length
  // ---------------------------------------------------------------------

  /** Each element with the slash after it. */
  function Weight(es: seq<string>): nat {
    if es == [] then 0 else |es[0]| + 1 + Weight(es[1..])
  }

  lemma {:induction false} WeightAppend(es: seq<string>, e: string)
    ensures Weight(es + [e]) == Weight(es) + |e| + 1
  {
    if es == [] {
      assert es + [e] == [e];
    } else {
      assert (es + [e])[1..] == es[1..] + [e];
      WeightAppend(es[1..], e);
    }
  }

  lemma {:induction false} SplitWeight(s: string)
    ensures Weight(Split(s)) == |s| + 1
  {
    if s != "" {
      SplitWeight(s[1..]);
      if s[0] != '/' {
        var r := Split(s[1..]);
        assert Split(s)[1..] == r[1..];
      }
    }
  }

  lemma {:induction false} JoinWeight(es: seq<string>)
    ensures |Join(es)| + 1 == if es == [] then 1 else Weight(es)
    decreases |es|
  {
    if |es| > 1 {
      JoinWeight(es[1..]);
    }
  }

  lemma PushWeight(st: seq<string>, e: string, rooted: bool)
    ensures Weight(Push(st, e, rooted)) <= Weight(st) + (if e == "" then 0 else |e| + 1)
  {
    if st != [] {
      assert st == st[..|st| - 1] + [st[|st| - 1]];
      WeightAppend(st[..|st| - 1], st[|st| - 1]);
    }
    WeightAppend(st, e);
  }

  lemma {:induction false} FoldWeight(st: seq<string>, es: seq<string>, rooted: bool)
    ensures Weight(Fold(st, es, rooted)) <= Weight(st) + Weight(es)
    decreases |es|
  {
    if es != [] {
      PushWeight(st, es[0], rooted);
      FoldWeight(Push(st, es[0], rooted), es[1..], rooted);
    }
  }

  /** Cleaning never lengthens a path, but for the empty one. */
  lemma CleanNoLonger(s: string)
    ensures |Clean(s)| <= if s == "" then 1 else |s|
  {
    var rooted := Rooted(s);
    SplitWeight(s);
    JoinWeight(Elements(s));
    if rooted {
      FoldWeight([], Split(s[1..]), rooted);
      assert Split(s) == [""] + Split(s[1..]);
      assert ([""] + Split(s[1..]))[1..] == Split(s[1..]);
      assert Elements(s) == Fold([], Split(s[1..]), rooted);
      SplitWeight(s[1..]);
    } else {
      FoldWeight([], Split(s), rooted);
    }
  }

  // ---------------------------------------------------------------------
  // NUL bytes
  // ---------------------------------------------------------------------

  predicate NoNul(e: string) {
    '\0' !in e
  }

  lemma {:induction false} SplitNoNul(s: string)
    requires NoNul(s)
    ensures forall i :: 0 <= i < |Split(s)| ==> NoNul(Split(s)[i])
  {
    if s != "" {
      assert s[0] in s;
      SplitNoNul(s[1..]);
    }
  }

  lemma {:induction false} FoldNoNul(st: seq<string>, es: seq<string>, rooted: bool)
    requires forall i :: 0 <= i < |st| ==> NoNul(st[i])
    requires forall i :: 0 <= i < |es| ==> NoNul(es[i])
    ensures forall i :: 0 <= i < |Fold(st, es, rooted)| ==> NoNul(Fold(st, es, rooted)[i])
    decreases |es|
  {
    if es != [] {
      FoldNoNul(Push(st, es[0], rooted), es[1..], rooted);
    }
  }

  lemma {:induction false} JoinNoNul(es: seq<string>)
    requires forall i :: 0 <= i < |es| ==> NoNul(es[i])
    ensures NoNul(Join(es))
    decreases |es|
  {
    if |es| > 1 {
      JoinNoNul(es[1..]);
    }
  }

  lemma CleanNoNul(s: string)
    requires NoNul(s)
    ensures NoNul(Clean(s))
  {
    SplitNoNul(s);
    FoldNoNul([], Split(s), Rooted(s));
    JoinNoNul(Elements(s));
  }
}
