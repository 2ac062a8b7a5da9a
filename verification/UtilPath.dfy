/** lib/util_path.c: cleaning a path in place and printing a relative path, on
    NUL-terminated character buffers. */
module UtilPath {
  import opened PathSpec
  import opened Wrappers

  const PATH_MAX: nat := 4096

  /** buf[..n] is a C string. */
  ghost predicate CString(buf: array<char>, n: nat)
    reads buf
  {
    n < buf.Length && buf[n] == '\0' && '\0' !in buf[..n]
  }

  function Max1(n: nat): nat {
    if n == 0 then 1 else n
  }

  // ---------------------------------------------------------------------
  // The text of a stack as it grows and shrinks
  // ---------------------------------------------------------------------

  lemma TextAppend(rooted: bool, st: seq<string>, e: string)
    ensures Text(rooted, st + [e]) == Text(rooted, st) + (if st == [] then "" else "/") + e
  {
    JoinAppend(st, e);
  }

  /** The text of a longer stack is longer. */
  lemma {:induction false} TextGrows(rooted: bool, st: seq<string>, k: nat)
    requires k < |st| && forall i :: 0 <= i < |st| ==> st[i] != ""
    ensures |Text(rooted, st[..k])| < |Text(rooted, st)|
    decreases |st|
  {
    var n := |st| - 1;
    assert st == st[..n] + [st[n]];
    TextAppend(rooted, st[..n], st[n]);
    if k < n {
      assert st[..n][..k] == st[..k];
      TextGrows(rooted, st[..n], k);
    }
  }

  /** One whole element consumed. */
  lemma ElementStep(st: seq<string>, e: string, t: string, rooted: bool)
    requires SlashFree(e) && (t == "" || t[0] == '/')
    ensures Fold(st, Split(e + t), rooted) == Fold(Push(st, e, rooted), Split(t), rooted)
  {
    SplitHead(e, t);
    var r := Split(t)[1..];
    assert Split(t) == [""] + r;
    assert ([e] + r)[1..] == r && ([""] + r)[1..] == r;
  }

  // ---------------------------------------------------------------------
  // Cleaning
  // ---------------------------------------------------------------------

  /** What the cleaning loop has done: the text written so far spells the stack st,
      whose leading ".." run of k elements ends at dotdot, and folding the rest of the
      input onto st gives the goal. The writer never overtakes the reader at p. */
  ghost predicate Cleaning(rooted: bool, goal: seq<string>, rest: string, text: string, p: nat, dotdot: nat,
    st: seq<string>, k: nat)
  {
    && Shape(st, k) && (rooted ==> k == 0)
    && text == Text(rooted, st)
    && dotdot == |Text(rooted, st[..k])|
    && Fold(st, Split(rest), rooted) == goal
    && |text| <= p
    && (|text| < p || rest == "" || rest[0] == '/' || st == [])
  }

  /** Byte tests of the loop read as tests on the stack. */
  lemma Tests(rooted: bool, text: string, dotdot: nat, st: seq<string>, k: nat)
    requires Shape(st, k) && text == Text(rooted, st) && dotdot == |Text(rooted, st[..k])|
    ensures (|text| > (if rooted then 1 else 0)) == (st != [])
    ensures (|text| > dotdot) == (|st| > k)
    ensures |text| >= dotdot
  {
    ShapeSlashFree(st, k);
    if |st| > k {
      TextGrows(rooted, st, k);
    } else {
      assert st[..k] == st;
    }
    if st != [] {
      TextGrows(rooted, st, 0);
      assert st[..0] == [];
    }
  }

  /** The last element, the separator before it and the text they leave. */
  lemma LastElement(rooted: bool, st: seq<string>, k: nat) returns (kept: string, sep: string, e: string)
    requires k < |st| && Shape(st, k)
    ensures kept == Text(rooted, st[..|st| - 1]) && Text(rooted, st) == kept + sep + e
    ensures e != "" && SlashFree(e) && |Text(rooted, st[..k])| <= |kept|
    ensures sep == "/" || (sep == "" && |Text(rooted, st[..k])| == |kept|)
  {
    var n := |st| - 1;
    kept, sep, e := Text(rooted, st[..n]), if n == 0 then "" else "/", st[n];
    assert st == st[..n] + [e];
    TextAppend(rooted, st[..n], e);
    ShapeSlashFree(st, k);
    if k < n {
      assert st[..n][..k] == st[..k];
      TextGrows(rooted, st[..n], k);
    }
  }

  /** lib/util_path.c:97-99: step back over the last element. */
  method Backtrack(dst: array<char>, d0: nat, dotdot: nat, ghost kept: string, ghost sep: string, ghost e: string)
    returns (d: nat)
    requires dotdot < d0 <= dst.Length && dst[..d0] == kept + sep + e
    requires e != "" && SlashFree(e) && dotdot <= |kept|
    requires sep == "/" || (sep == "" && dotdot == |kept|)
    ensures d < d0 && dst[..d] == kept
  {
    d := d0 - 1;
    while d > dotdot && dst[d] != '/'
      invariant |kept| <= d < d0
    {
      assert dst[d] == (kept + sep + e)[d];
      d := d - 1;
    }
    assert dst[d] == (kept + sep + e)[d];
    if d >= |kept| + |sep| {
      assert dst[d] == e[d - |kept| - |sep|] && dst[d] in e;
    }
    assert dst[..d] == dst[..d0][..d];
  }

  /** lib/util_path.c:116-117: copy a plain element. */
  method CopyElement(dst: array<char>, d0: nat, buf: string, p0: nat) returns (d: nat, p: nat)
    requires p0 <= |buf| && d0 + |buf| - p0 < dst.Length
    modifies dst
    ensures p0 <= p <= |buf| && d == d0 + (p - p0)
    ensures SlashFree(buf[p0..p]) && (p == |buf| || buf[p] == '/')
    ensures dst[..d] == old(dst[..d0]) + buf[p0..p]
    ensures forall j :: d <= j < dst.Length ==> dst[j] == old(dst[j])
  {
    d, p := d0, p0;
    while p < |buf| && buf[p] != '/'
      invariant p0 <= p <= |buf| && d == d0 + (p - p0)
      invariant SlashFree(buf[p0..p])
      invariant dst[..d] == old(dst[..d0]) + buf[p0..p]
      invariant forall j :: d <= j < dst.Length ==> dst[j] == old(dst[j])
    {
      dst[d] := buf[p];
      d, p := d + 1, p + 1;
      assert buf[p0..p] == buf[p0..p - 1] + [buf[p - 1]];
      assert dst[..d] == dst[..d - 1] + [dst[d - 1]];
    }
  }

  /** A slash is passed over. */
  lemma CleaningSlash(rooted: bool, goal: seq<string>, t: string, text: string, p: nat, dotdot: nat,
    st: seq<string>, k: nat)
    requires Cleaning(rooted, goal, "/" + t, text, p, dotdot, st, k)
    ensures Cleaning(rooted, goal, t, text, p + 1, dotdot, st, k)
  {
    assert "/" + t == "" + "/" + t;
    SplitSlash("", t);
    assert ([""] + Split(t))[1..] == Split(t);
  }

  /** A whole element is passed over when it leaves the stack alone. */
  lemma CleaningSkips(rooted: bool, goal: seq<string>, e: string, t: string, text: string, p: nat, dotdot: nat,
    st: seq<string>, k: nat)
    requires Cleaning(rooted, goal, e + t, text, p, dotdot, st, k)
    requires e != "" && SlashFree(e) && (t == "" || t[0] == '/') && Push(st, e, rooted) == st
    ensures Cleaning(rooted, goal, t, text, p + |e|, dotdot, st, k)
  {
    ElementStep(st, e, t, rooted);
  }

  /** A ".." drops the last element that is not one itself. */
  lemma CleaningPops(rooted: bool, goal: seq<string>, t: string, text: string, p: nat, dotdot: nat,
    st: seq<string>, k: nat)
    requires Cleaning(rooted, goal, ".." + t, text, p, dotdot, st, k) && |st| > k && (t == "" || t[0] == '/')
    ensures Cleaning(rooted, goal, t, Text(rooted, st[..|st| - 1]), p + 2, dotdot, st[..|st| - 1], k)
  {
    ElementStep(st, "..", t, rooted);
    ShapeSlashFree(st, k);
    TextGrows(rooted, st, |st| - 1);
    PopShape(st, k);
  }

  /** Room for the separator and the element. */
  lemma CleaningRoom(rooted: bool, goal: seq<string>, e: string, t: string, text: string, p: nat, dotdot: nat,
    st: seq<string>, k: nat)
    requires Cleaning(rooted, goal, e + t, text, p, dotdot, st, k) && e != "" && SlashFree(e)
    ensures |text| + (if st == [] then 0 else 1) <= p
  {
    assert (e + t)[0] == e[0] && e[0] in e;
  }

  lemma PlainShape(st: seq<string>, e: string, k: nat)
    requires Shape(st, k) && Plain(e)
    ensures Shape(st + [e], k) && (st + [e])[..k] == st[..k]
  {
  }

  lemma DotDotShape(st: seq<string>, k: nat)
    requires Shape(st, k) && |st| == k
    ensures Shape(st + [".."], k + 1) && (st + [".."])[..k + 1] == st + [".."]
  {
  }

  lemma PopShape(st: seq<string>, k: nat)
    requires Shape(st, k) && |st| > k
    ensures Shape(st[..|st| - 1], k) && st[..|st| - 1][..k] == st[..k]
  {
  }

  /** A plain element is appended. */
  lemma CleaningAppends(rooted: bool, goal: seq<string>, e: string, t: string, text: string, p: nat, dotdot: nat,
    st: seq<string>, k: nat)
    requires Cleaning(rooted, goal, e + t, text, p, dotdot, st, k)
    requires Plain(e) && (t == "" || t[0] == '/')
    ensures Cleaning(rooted, goal, t, text + (if st == [] then "" else "/") + e, p + |e|, dotdot, st + [e], k)
  {
    CleaningRoom(rooted, goal, e, t, text, p, dotdot, st, k);
    ElementStep(st, e, t, rooted);
    TextAppend(rooted, st, e);
    PlainShape(st, e, k);
  }

  /** A ".." with nothing to drop stays in an unrooted path. */
  lemma CleaningKeepsDotDot(goal: seq<string>, t: string, text: string, p: nat, dotdot: nat,
    st: seq<string>, k: nat)
    requires Cleaning(false, goal, ".." + t, text, p, dotdot, st, k) && |st| == k && (t == "" || t[0] == '/')
    ensures var text' := text + (if st == [] then "" else "/") + "..";
      Cleaning(false, goal, t, text', p + 2, |text'|, st + [".."], k + 1)
  {
    var e := "..";
    CleaningRoom(false, goal, e, t, text, p, dotdot, st, k);
    ElementStep(st, e, t, false);
    TextAppend(false, st, e);
    DotDotShape(st, k);
  }

  lemma CleaningStarts(s: string)
    ensures Rooted(s) ==> Cleaning(true, Elements(s), s[1..], "/", 1, 1, [], 0)
    ensures !Rooted(s) ==> Cleaning(false, Elements(s), s, "", 0, 0, [], 0)
  {
    if Rooted(s) {
      assert Split(s) == [""] + Split(s[1..]);
      assert ([""] + Split(s[1..]))[1..] == Split(s[1..]);
    }
  }

  lemma CleaningEnds(s: string, text: string, p: nat, dotdot: nat, st: seq<string>, k: nat)
    requires Cleaning(Rooted(s), Elements(s), "", text, p, dotdot, st, k)
    ensures Clean(s) == if text == "" then "." else text
  {
    assert Fold(st, [""], Rooted(s)) == st by { assert [""][1..] == []; }
    Tests(Rooted(s), text, dotdot, st, k);
  }

  predicate DotAt(s: string, p: nat) {
    p < |s| && s[p] == '.' && (p + 1 == |s| || s[p + 1] == '/')
  }

  predicate DotDotAt(s: string, p: nat) {
    p + 1 < |s| && s[p] == '.' && s[p + 1] == '.' && (p + 2 == |s| || s[p + 2] == '/')
  }

  /** lib/util_path.c:87-92: an empty or a "." element. */
  lemma CleaningPasses(rooted: bool, goal: seq<string>, s: string, text: string, p: nat, dotdot: nat,
    st: seq<string>, k: nat)
    requires p < |s| && Cleaning(rooted, goal, s[p..], text, p, dotdot, st, k) && (s[p] == '/' || DotAt(s, p))
    ensures Cleaning(rooted, goal, s[p + 1..], text, p + 1, dotdot, st, k)
  {
    if s[p] == '/' {
      assert s[p..] == "/" + s[p + 1..];
      CleaningSlash(rooted, goal, s[p + 1..], text, p, dotdot, st, k);
    } else {
      assert s[p..] == "." + s[p + 1..];
      CleaningSkips(rooted, goal, ".", s[p + 1..], text, p, dotdot, st, k);
    }
  }

  lemma DotDotHere(s: string, p: nat)
    requires DotDotAt(s, p)
    ensures s[p..] == ".." + s[p + 2..]
  {
  }

  /** lib/util_path.c:103-107: append a ".." that cannot be resolved. */
  method AppendDotDot(dst: array<char>, d0: nat) returns (d: nat)
    requires d0 + 3 <= dst.Length || (d0 == 0 && 2 <= dst.Length)
    modifies dst
    ensures d <= dst.Length && dst[..d] == old(dst[..d0]) + (if d0 == 0 then "" else "/") + ".."
    ensures forall j :: d <= j < dst.Length ==> dst[j] == old(dst[j])
  {
    d := d0;
    if d > 0 {
      dst[d] := '/';
      d := d + 1;
    }
    dst[d] := '.';
    dst[d + 1] := '.';
    d := d + 2;
  }

  /** The default branch sees plain elements only. */
  lemma PlainAt(s: string, p: nat, q: nat)
    requires p < |s| && s[p] != '/' && !DotAt(s, p) && !DotDotAt(s, p)
    requires p <= q <= |s| && SlashFree(s[p..q]) && (q == |s| || s[q] == '/')
    ensures p < q && Plain(s[p..q]) && s[p..] == s[p..q] + s[q..]
  {
    var e := s[p..q];
    assert e != "" && e[0] == s[p];
    if |e| > 1 { assert e[1] == s[p + 1]; }
  }

  /** lib/util_path.c:91-110: a ".." element. */
  method CleanDotDot(dst: array<char>, d0: nat, p: nat, dotdot0: nat, rooted: bool,
    ghost goal: seq<string>, ghost t: string, ghost st0: seq<string>, ghost k0: nat)
    returns (d: nat, dotdot: nat, ghost st: seq<string>, ghost k: nat)
    requires d0 <= p && p + 2 < dst.Length && (t == "" || t[0] == '/')
    requires Cleaning(rooted, goal, ".." + t, dst[..d0], p, dotdot0, st0, k0)
    modifies dst
    ensures d <= p + 2 && Cleaning(rooted, goal, t, dst[..d], p + 2, dotdot, st, k)
    ensures forall j :: p + 2 <= j < dst.Length ==> dst[j] == old(dst[j])
  {
    d, dotdot, st, k := d0, dotdot0, st0, k0;
    ghost var text := dst[..d];
    Tests(rooted, text, dotdot, st, k);
    if d > dotdot {
      CleaningPops(rooted, goal, t, text, p, dotdot, st, k);
      ghost var kept, sep, e := LastElement(rooted, st, k);
      d := Backtrack(dst, d, dotdot, kept, sep, e);
      st := st[..|st| - 1];
    } else if !rooted {
      CleaningRoom(rooted, goal, "..", t, text, p, dotdot, st, k);
      CleaningKeepsDotDot(goal, t, text, p, dotdot, st, k);
      d := AppendDotDot(dst, d);
      st, k := st + [".."], k + 1;
      dotdot := d;
    } else {
      CleaningSkips(rooted, goal, "..", t, text, p, dotdot, st, k);
    }
  }

  /** lib/util_path.c:114-117: a plain element. */
  method CleanPlainElement(dst: array<char>, buf: string, d0: nat, p0: nat, rooted: bool,
    ghost goal: seq<string>, ghost dotdot: nat, ghost st0: seq<string>, ghost k: nat)
    returns (d: nat, p: nat, ghost st: seq<string>)
    requires |buf| < dst.Length && d0 <= p0 < |buf|
    requires buf[p0] != '/' && !DotAt(buf, p0) && !DotDotAt(buf, p0)
    requires Cleaning(rooted, goal, buf[p0..], dst[..d0], p0, dotdot, st0, k)
    modifies dst
    ensures p0 < p <= |buf| && d <= p && Cleaning(rooted, goal, buf[p..], dst[..d], p, dotdot, st, k)
    ensures forall j :: |buf| <= j < dst.Length ==> dst[j] == old(dst[j])
  {
    d := d0;
    ghost var text := dst[..d];
    Tests(rooted, text, dotdot, st0, k);
    if d > if rooted then 1 else 0 {
      dst[d] := '/';
      d := d + 1;
    }
    assert dst[..d] == text + (if st0 == [] then "" else "/");
    d, p := CopyElement(dst, d, buf, p0);
    ghost var e := buf[p0..p];
    PlainAt(buf, p0, p);
    CleaningAppends(rooted, goal, e, buf[p..], text, p0, dotdot, st0, k);
    st := st0 + [e];
  }

  /** lib/util_path.c:85-118: one round of the loop. */
  method CleanOne(dst: array<char>, buf: string, d0: nat, p0: nat, dotdot0: nat, rooted: bool,
    ghost goal: seq<string>, ghost st0: seq<string>, ghost k0: nat)
    returns (d: nat, p: nat, dotdot: nat, ghost st: seq<string>, ghost k: nat)
    requires |buf| < dst.Length && d0 <= p0 < |buf|
    requires Cleaning(rooted, goal, buf[p0..], dst[..d0], p0, dotdot0, st0, k0)
    modifies dst
    ensures d <= p && p0 < p <= |buf| && Cleaning(rooted, goal, buf[p..], dst[..d], p, dotdot, st, k)
    ensures forall j :: |buf| <= j < dst.Length ==> dst[j] == old(dst[j])
  {
    d, p, dotdot, st, k := d0, p0, dotdot0, st0, k0;
    if buf[p] == '/' || DotAt(buf, p) {
      CleaningPasses(rooted, goal, buf, dst[..d], p, dotdot, st, k);
      p := p + 1;
    } else if DotDotAt(buf, p) {
      DotDotHere(buf, p);
      d, dotdot, st, k := CleanDotDot(dst, d, p, dotdot, rooted, goal, buf[p + 2..], st, k);
      p := p + 2;
    } else {
      d, p, st := CleanPlainElement(dst, buf, d, p, rooted, goal, dotdot, st, k);
    }
  }

  /** lib/util_path.c:66-128. None when the terminator would be written past the buffer,
      which happens exactly for an empty string in a buffer of one byte. */
  method PathClean(dst: array<char>, n: nat) returns (len: Option<int>)
    requires CString(dst, n)
    modifies dst
    ensures len.None? <==> n == 0 && dst.Length == 1
    ensures n >= PATH_MAX ==> len == Some(-1) && dst[..] == old(dst[..])
    ensures n < PATH_MAX && len.Some? ==>
      0 <= len.value <= Max1(n) && CString(dst, len.value) && dst[..len.value] == Clean(old(dst[..n]))
    ensures forall j :: Max1(n) < j < dst.Length ==> dst[j] == old(dst[j])
  {
    if n >= PATH_MAX {
      return Some(-1);
    }
    var buf := dst[..n];
    var p: nat, dotdot: nat, d: nat := 0, 0, 0;
    var rooted := Rooted(buf);
    if rooted {
      dst[0] := '/';
      p, dotdot, d := 1, 1, 1;
    }
    ghost var st: seq<string> := [];
    ghost var k: nat := 0;
    CleaningStarts(buf);
    ghost var goal := Elements(buf);
    assert dst[..d] == if rooted then "/" else "";
    assert buf[0..] == buf;
    while p < n
      invariant d <= p <= n
      invariant Cleaning(rooted, goal, buf[p..], dst[..d], p, dotdot, st, k)
      invariant forall j :: n <= j < dst.Length ==> dst[j] == old(dst[j])
    {
      d, p, dotdot, st, k := CleanOne(dst, buf, d, p, dotdot, rooted, goal, st, k);
    }
    assert buf[p..] == "";
    CleaningEnds(buf, dst[..d], p, dotdot, st, k);
    if d == 0 {
      dst[d] := '.';
      d := d + 1;
    }
    assert dst[..d] == Clean(buf);
    CleanNoNul(buf);
    if d == dst.Length {
      return None;
    }
    dst[d] := '\0';
    return Some(d);
  }
}
