/** The relative path between two cleaned paths, and what it is for: resolving it
    against the directory of the first gives the second. */
module PathRelSpec {
  import opened PathSpec

  /** Length of the longest common prefix. */
  function FirstDiff(f: string, t: string): (i: nat)
    ensures i <= |f| && i <= |t|
    ensures f[..i] == t[..i]
    ensures i < |f| && i < |t| ==> f[i] != t[i]
  {
    if f == "" || t == "" || f[0] != t[0] then 0
    else
      var i := FirstDiff(f[1..], t[1..]);
      assert f[..i + 1] == [f[0]] + f[1..][..i] && t[..i + 1] == [t[0]] + t[1..][..i];
      i + 1
  }

  /** Index of the last slash, 0 without one. */
  function LastSlash(s: string): (i: nat)
    ensures s != "" ==> i < |s|
    ensures '/' in s ==> i < |s| && s[i] == '/'
    ensures forall j :: i < j < |s| ==> s[j] != '/'
  {
    if s == "" then 0
    else if s[|s| - 1] == '/' then |s| - 1
    else
      assert '/' in s ==> '/' in s[..|s| - 1];
      LastSlash(s[..|s| - 1])
  }

  function Slashes(s: string): nat {
    if s == "" then 0 else (if s[0] == '/' then 1 else 0) + Slashes(s[1..])
  }

  function Ups(n: nat): string {
    if n == 0 then "" else "../" + Ups(n - 1)
  }

  /** One "../" per slash that is left of f after the common prefix, then what
      follows the last common slash in t. */
  function RelClean(f: string, t: string): string {
    var i := FirstDiff(f, t);
    var s := LastSlash(t[..i]);
    Ups(Slashes(f[i..])) + (if s < |t| then t[s + 1..] else "")
  }

  function Rel(from: string, to: string): string {
    RelClean(Clean(from), Clean(to))
  }

  /** The path without its last element and the slash before it. */
  function Dir(f: string): string {
    f[..LastSlash(f)]
  }

  // ---------------------------------------------------------------------
  // Slashes and elements
  // ---------------------------------------------------------------------

  lemma {:induction false} SplitCount(s: string)
    ensures |Split(s)| == Slashes(s) + 1
  {
    if s != "" {
      SplitCount(s[1..]);
    }
  }

  lemma {:induction false} SlashesSkip(s: string, i: nat)
    requires i <= |s| && '/' !in s[..i]
    ensures Slashes(s) == Slashes(s[i..])
  {
    if i > 0 {
      assert s[0] == s[..i][0];
      forall c | c in s[1..][..i - 1] ensures c in s[..i] {
        var j :| 0 <= j < i - 1 && s[1..][..i - 1][j] == c;
        assert s[..i][j + 1] == c;
      }
      SlashesSkip(s[1..], i - 1);
      assert s[1..][i - 1..] == s[i..];
    } else {
      assert s[i..] == s;
    }
  }

  function DotDots(n: nat): (r: seq<string>)
    ensures |r| == n && forall i :: 0 <= i < n ==> r[i] == ".."
  {
    if n == 0 then [] else [".."] + DotDots(n - 1)
  }

  lemma {:induction false} SplitUps(n: nat, x: string)
    ensures Split(Ups(n) + x) == DotDots(n) + Split(x)
  {
    if n == 0 {
      assert Ups(n) + x == x;
    } else {
      assert Ups(n) + x == ".." + "/" + (Ups(n - 1) + x);
      SplitSlash("..", Ups(n - 1) + x);
      SplitElement("..");
      SplitUps(n - 1, x);
      assert [".."] + (DotDots(n - 1) + Split(x)) == DotDots(n) + Split(x);
    }
  }

  /** Climbing out of n plain elements undoes them. */
  lemma {:induction false} ClimbCancels(st: seq<string>, xs: seq<string>, rooted: bool)
    requires forall i :: 0 <= i < |xs| ==> Plain(xs[i])
    ensures Fold(st, xs + DotDots(|xs|), rooted) == st
    decreases |xs|
  {
    var n := |xs|;
    if n > 0 {
      var x := xs[n - 1];
      var a, d := xs[..n - 1], DotDots(n);
      assert d == [".."] + DotDots(n - 1);
      assert xs + d == (a + [x, ".."]) + DotDots(n - 1);
      FoldConcat(st, a + [x, ".."], DotDots(n - 1), rooted);
      FoldConcat(st, a, [x, ".."], rooted);
      PushPop(Fold(st, a, rooted), x, rooted);
      FoldConcat(st, a, DotDots(n - 1), rooted);
      ClimbCancels(st, a, rooted);
    }
  }

  lemma PushPop(st: seq<string>, x: string, rooted: bool)
    requires Plain(x)
    ensures Fold(st, [x, ".."], rooted) == st
  {
    assert [x, ".."][1..] == [".."];
    assert [".."][1..] == [];
    assert Push(st + [x], "..", rooted) == st;
  }

  // ---------------------------------------------------------------------
  // Resolution
  // ---------------------------------------------------------------------

  /** The elements of a cleaned rooted path after its root are plain, but for "/". */
  lemma CleanPlain(f: string)
    requires Rooted(f) && Clean(f) == f
    ensures forall i :: 1 <= i < |Split(f)| ==> Plain(Split(f)[i]) || (|Split(f)| == 2 && Split(f)[i] == "")
  {
    CleanElements(f);
  }

  lemma DirSplit(f: string)
    requires Rooted(f)
    ensures |Split(f)| > 1 && Split(Dir(f)) == Split(f)[..|Split(f)| - 1]
  {
    var k := LastSlash(f);
    assert f[0] in f;
    var base := f[k + 1..];
    assert f == Dir(f) + "/" + base;
    SplitSlash(Dir(f), base);
    assert SlashFree(base) by {
      forall j | 0 <= j < |base| ensures base[j] != '/' { assert base[j] == f[k + 1 + j]; }
    }
    SplitElement(base);
  }

  /** The directory of a path cut at a slash: all elements but the last, and those
      after the cut are plain. */
  lemma DirOfCut(f: string, pre: string, fx: string) returns (xs: seq<string>)
    requires Rooted(f) && Clean(f) == f && f == pre + "/" + fx
    ensures Split(Dir(f)) == Split(pre) + xs
    ensures |xs| == Slashes(fx) && forall i :: 0 <= i < |xs| ==> Plain(xs[i])
  {
    SplitSlash(pre, fx);
    SplitCount(fx);
    DirSplit(f);
    CleanPlain(f);
    xs := Split(fx)[..Slashes(fx)];
    forall i | 0 <= i < |xs| ensures Plain(xs[i]) {
      assert xs[i] == Split(f)[|Split(pre)| + i];
    }
  }

  lemma FoldClimb(a: seq<string>, xs: seq<string>, b: seq<string>)
    requires forall i :: 0 <= i < |xs| ==> Plain(xs[i])
    ensures Fold([], (a + xs) + (DotDots(|xs|) + b), true) == Fold([], a + b, true)
  {
    var climb := xs + DotDots(|xs|);
    assert (a + xs) + (DotDots(|xs|) + b) == a + (climb + b);
    FoldConcat([], a, climb + b, true);
    FoldConcat(Fold([], a, true), climb, b, true);
    ClimbCancels(Fold([], a, true), xs, true);
    FoldConcat([], a, b, true);
  }

  /** Two paths cut at a common slash: going from the directory of the first up to
      the slash and down again ends at the second. */
  lemma ResolveAt(f: string, t: string, pre: string, fx: string, tx: string)
    requires Rooted(f) && Rooted(t) && Clean(f) == f
    requires f == pre + "/" + fx && t == pre + "/" + tx
    ensures Fold([], Split(Dir(f) + "/" + (Ups(Slashes(fx)) + tx)), true) == Elements(t)
  {
    var up := Slashes(fx);
    var xs := DirOfCut(f, pre, fx);
    SplitSlash(pre, tx);
    SplitSlash(Dir(f), Ups(up) + tx);
    SplitUps(up, tx);
    FoldClimb(Split(pre), xs, Split(tx));
  }

  lemma RelCleanCuts(f: string, t: string) returns (pre: string, fx: string, tx: string)
    requires Rooted(f) && Rooted(t)
    ensures f == pre + "/" + fx && t == pre + "/" + tx
    ensures RelClean(f, t) == Ups(Slashes(fx)) + tx
  {
    var i, s, common := CommonSlash(f, t);
    pre, fx, tx := common[..s], f[s + 1..], t[s + 1..];
    CutCommon(common, s, f, i);
    CutCommon(common, s, t, i);
  }

  lemma CommonSlash(f: string, t: string) returns (i: nat, s: nat, common: string)
    requires Rooted(f) && Rooted(t)
    ensures i <= |f| && i <= |t| && f[..i] == common && t[..i] == common
    ensures s < i && common[s] == '/' && forall j :: s < j < i ==> common[j] != '/'
    ensures RelClean(f, t) == Ups(Slashes(f[i..])) + t[s + 1..]
  {
    i := FirstDiff(f, t);
    assert i > 0;
    common := t[..i];
    assert common[0] in common;
    s := LastSlash(common);
  }

  /** A path with a known beginning, cut at the last slash of that beginning. */
  lemma CutCommon(common: string, s: nat, f: string, i: nat)
    requires i <= |f| && f[..i] == common && s < i && common[s] == '/'
    requires forall j :: s < j < i ==> common[j] != '/'
    ensures f == common[..s] + "/" + f[s + 1..]
    ensures Slashes(f[s + 1..]) == Slashes(f[i..])
  {
    assert f == f[..s] + [f[s]] + f[s + 1..];
    assert f[..s] == common[..s];
    var gap := f[s + 1..][..i - s - 1];
    forall j | 0 <= j < |gap| ensures gap[j] != '/' {
      assert gap[j] == f[..i][s + 1 + j];
    }
    SlashesSkip(f[s + 1..], i - s - 1);
    assert f[s + 1..][i - s - 1..] == f[i..];
  }

  /** Resolving the relative path against the directory of `from` gives `to`. */
  lemma RelResolves(from: string, to: string)
    requires Rooted(from) && Rooted(to)
    ensures Clean(Dir(Clean(from)) + "/" + Rel(from, to)) == Clean(to)
  {
    var f, t := Clean(from), Clean(to);
    CleanIdempotent(from);
    CleanIdempotent(to);
    var pre, fx, tx := RelCleanCuts(f, t);
    ResolveAt(f, t, pre, fx, tx);
    assert f[0] == '/';
    var r := Dir(f) + "/" + Rel(from, to);
    assert Rooted(r) by {
      if Dir(f) != "" { assert Dir(f)[0] == f[0]; }
    }
    assert Clean(r) == Clean(t);
  }

  // ---------------------------------------------------------------------
  // Where the scans stay inside their strings
  // ---------------------------------------------------------------------

  lemma {:induction false} FirstDiffIs(f: string, t: string, i: nat)
    requires i <= |f| && i <= |t| && f[..i] == t[..i]
    requires i == |f| || i == |t| || f[i] != t[i]
    ensures FirstDiff(f, t) == i
  {
    if i > 0 {
      assert f[0] == f[..i][0] == t[..i][0] == t[0];
      assert f[1..][..i - 1] == f[..i][1..] && t[1..][..i - 1] == t[..i][1..];
      FirstDiffIs(f[1..], t[1..], i - 1);
    }
  }

  /** The byte at index i of a C string, whose last byte is the terminator. */
  function ByteAt(s: string, i: nat): char
    requires i <= |s|
  {
    if i < |s| then s[i] else '\0'
  }

  /** The condition of the first loop, which tests the goal itself and not its cursor. */
  predicate Guard(f: string, t: string, goal: bool, i: nat) {
    i <= |f| && i <= |t| && ByteAt(f, i) == ByteAt(t, i) && goal
  }

  /** The first loop stops at n, inside both strings. */
  ghost predicate StopsAt(f: string, t: string, goal: bool, n: nat) {
    n <= |f| && n <= |t| && !Guard(f, t, goal, n) && forall i: nat :: i < n ==> Guard(f, t, goal, i)
  }

  /** And the second loop, which starts one byte before n, starts inside its string. */
  ghost predicate StaysInside(f: string, t: string, goal: bool) {
    exists n: nat :: StopsAt(f, t, goal, n) && n > 0
  }

  lemma StopsAtFirst(f: string, t: string, goal: bool, n: nat)
    requires NoNul(f) && NoNul(t) && StopsAt(f, t, goal, n)
    ensures if goal then n == FirstDiff(f, t) && f != t else n == 0
  {
    if goal {
      forall i: nat | i < n ensures i < |f| && i < |t| && f[i] == t[i] {
        assert Guard(f, t, goal, i);
      }
      assert f[..n] == t[..n];
      FirstDiffIs(f, t, n);
    } else {
      assert !Guard(f, t, goal, 0);
    }
  }

  /** The loop stops in at most one place. */
  lemma StopsOnce(f: string, t: string, goal: bool)
    ensures forall m: nat, n: nat :: StopsAt(f, t, goal, m) && StopsAt(f, t, goal, n) ==> m == n
  {
  }

  /** On equal strings the condition holds at every index, the terminator included, and
      so the next byte read lies past both. */
  lemma EqualRunsOver(f: string)
    ensures forall i: nat :: i <= |f| ==> Guard(f, f, true, i)
    ensures forall n: nat :: !StopsAt(f, f, true, n)
  {
  }

  /** The scans stay inside the strings exactly when the goal is not empty, the cleaned
      paths differ, and they start alike. */
  lemma StaysInsideIff(f: string, t: string, goal: bool)
    requires NoNul(f) && NoNul(t)
    ensures StaysInside(f, t, goal) <==> goal && f != t && FirstDiff(f, t) > 0
  {
    if n: nat :| StopsAt(f, t, goal, n) && n > 0 {
      StopsAtFirst(f, t, goal, n);
    }
    if goal && f != t && FirstDiff(f, t) > 0 {
      var n := FirstDiff(f, t);
      DiffStops(f, t, n);
    }
  }

  lemma DiffStops(f: string, t: string, n: nat)
    requires NoNul(f) && NoNul(t) && f != t && n == FirstDiff(f, t)
    ensures StopsAt(f, t, true, n)
  {
    forall i: nat | i < n ensures Guard(f, t, true, i) {
      assert f[i] == f[..n][i] && t[i] == t[..n][i];
    }
    assert n < |f| ==> f[n] in f;
    assert n < |t| ==> t[n] in t;
    assert f[..|f|] == f && t[..|t|] == t;
  }

  /** One input for each way to leave the strings: equal paths, an empty goal, and paths
      that start differently. */
  lemma ScansLeave()
    ensures !StaysInside(Clean("/a"), Clean("/a"), true)
    ensures !StaysInside(Clean("/a"), Clean(""), false)
    ensures !StaysInside(Clean("a"), Clean("b"), true)
  {
    EqualRunsOver(Clean("/a"));
    assert forall n: nat :: StopsAt(Clean("/a"), Clean(""), false, n) ==> n == 0 by {
      forall n: nat | StopsAt(Clean("/a"), Clean(""), false, n) ensures n == 0 {
        assert n > 0 ==> Guard(Clean("/a"), Clean(""), false, 0);
      }
    }
    OneElement("a");
    OneElement("b");
    StaysInsideIff("a", "b", true);
  }

  lemma OneElement(e: string)
    requires Plain(e)
    ensures Clean(e) == e
  {
    SplitElement(e);
    assert e[0] in e;
    assert !Rooted(e);
    var none: seq<string> := [];
    assert Push(none, e, false) == [e];
    assert [e][1..] == none;
    assert Fold(none, [e], false) == Fold([e], none, false) == [e];
    assert Elements(e) == [e];
  }
}
