/** lib/util_path.c:130-171: printing a relative path into a bounded buffer. */
module UtilPathRel {
  import opened PathSpec
  import opened PathRelSpec
  import opened UtilPath
  import opened Wrappers

  /** A local PATH_MAX buffer holding a copy of s. */
  method CopyString(s: string) returns (buf: array<char>)
    requires NoNul(s) && |s| < PATH_MAX
    ensures fresh(buf) && buf.Length == PATH_MAX && CString(buf, |s|) && buf[..|s|] == s
  {
    buf := new char[PATH_MAX](_ => '\0');
    for i := 0 to |s|
      invariant buf[..i] == s[..i] && buf[|s|] == '\0'
    {
      buf[i] := s[i];
    }
  }

  /** strchr for '/': the first slash at or after i, or the length. */
  method NextSlash(buf: array<char>, n: nat, i: nat) returns (q: nat)
    requires CString(buf, n) && i <= n
    ensures i <= q <= n && (q == n || buf[q] == '/') && forall j :: i <= j < q ==> buf[j] != '/'
  {
    q := i;
    while buf[q] != '\0' && buf[q] != '/'
      invariant i <= q <= n && forall j :: i <= j < q ==> buf[j] != '/'
      decreases n - q
    {
      q := q + 1;
    }
    assert q < n ==> buf[q] == buf[..n][q];
  }

  /** The buffer holds as much of the output as fits before the final NUL. */
  ghost predicate Holds(dst: array<char>, out: string)
    reads dst
  {
    && dst.Length > 0
    && var fits := if |out| < dst.Length then |out| else dst.Length - 1;
      dst[..fits] == out[..fits]
  }

  method Emit(dst: array<char>, len: nat, x: string, ghost out: string) returns (len': nat)
    requires Holds(dst, out) && |out| == len
    modifies dst
    ensures len' == |out + x| && Holds(dst, out + x)
  {
    len' := len;
    for i := 0 to |x|
      invariant len' == len + i && Holds(dst, out + x[..i])
    {
      if len' + 1 < dst.Length {
        dst[len'] := x[i];
      }
      assert x[..i + 1] == x[..i] + [x[i]];
      assert out + x[..i + 1] == (out + x[..i]) + [x[i]];
      len' := len' + 1;
    }
    assert x[..|x|] == x;
  }

  lemma {:induction false} UpsAppend(n: nat)
    ensures Ups(n + 1) == Ups(n) + "../"
  {
    if n > 0 {
      UpsAppend(n - 1);
      assert "../" + (Ups(n - 1) + "../") == ("../" + Ups(n - 1)) + "../";
    }
  }

  /** lib/util_path.c:147-149: the first difference and the last slash before it, or None
      when the loop reads past the terminator of one of the strings. */
  method Diverge(fbuf: array<char>, fn: nat, tbuf: array<char>, tn: nat, goal: bool) returns (r: Option<(nat, nat)>)
    requires CString(fbuf, fn) && CString(tbuf, tn)
    ensures r.Some? ==> StopsAt(fbuf[..fn], tbuf[..tn], goal, r.value.0)
    ensures r.Some? ==> r.value.1 == LastSlash(tbuf[..tn][..r.value.0])
    ensures r.None? ==> forall n: nat :: !StopsAt(fbuf[..fn], tbuf[..tn], goal, n)
  {
    var i, suffix := 0, 0;
    ghost var f, t := fbuf[..fn], tbuf[..tn];
    while i <= fn && i <= tn && fbuf[i] == tbuf[i] && goal
      invariant 0 <= i <= fn + 1 && i <= tn + 1
      invariant forall j: nat :: j < i ==> Guard(f, t, goal, j)
      invariant i <= tn ==> suffix == LastSlash(t[..i])
      decreases fn + 1 - i
    {
      assert ByteAt(f, i) == fbuf[i] && ByteAt(t, i) == tbuf[i];
      assert i < tn ==> t[..i + 1] == t[..i] + [t[i]] && t[..i + 1][..i] == t[..i];
      if tbuf[i] == '/' {
        suffix := i;
      }
      i := i + 1;
    }
    if i > fn || i > tn {
      return None;
    }
    assert ByteAt(f, i) == fbuf[i] && ByteAt(t, i) == tbuf[i];
    return Some((i, suffix));
  }

  /** Counting goes on from the next slash, or ends. */
  lemma SlashesFrom(f: string, a: nat, q: nat)
    requires a <= q <= |f| && (forall j :: a <= j < q ==> f[j] != '/') && (q < |f| ==> f[q] == '/')
    ensures Slashes(f[a..]) == if q == |f| then 0 else 1 + Slashes(f[q + 1..])
  {
    var gap := f[a..];
    var part := gap[..q - a];
    forall j | 0 <= j < |part| ensures part[j] != '/' {
      assert part[j] == f[a + j];
    }
    SlashesSkip(gap, q - a);
    assert gap[q - a..] == f[q..];
    assert q < |f| ==> f[q..][1..] == f[q + 1..];
  }

  /** lib/util_path.c:151-152: one step up for every slash after the common part. */
  method CountUps(fbuf: array<char>, fn: nat, i: nat) returns (up: nat)
    requires CString(fbuf, fn) && 0 < i <= fn
    ensures up == Slashes(fbuf[..fn][i..])
  {
    ghost var f := fbuf[..fn];
    var at, ups: int := i - 1, -1;
    while at != fn
      invariant i - 1 <= at <= fn
      invariant at < fn ==> ups + 1 + Slashes(f[at + 1..]) == Slashes(f[i..])
      invariant at == fn ==> ups == Slashes(f[i..])
      decreases fn - at
    {
      var q := NextSlash(fbuf, fn, at + 1);
      SlashesFrom(f, at + 1, q);
      at, ups := q, ups + 1;
    }
    up := ups;
  }

  method EmitUps(dst: array<char>, up: nat) returns (l: nat)
    requires dst.Length > 0
    modifies dst
    ensures l == |Ups(up)| && Holds(dst, Ups(up))
  {
    l := 0;
    for done := 0 to up
      invariant l == |Ups(done)| && Holds(dst, Ups(done))
    {
      l := Emit(dst, l, "../", Ups(done));
      UpsAppend(done);
    }
  }

  /** lib/util_path.c:154-171: the output for a first difference i and a last slash. */
  method EmitRel(dst: array<char>, fbuf: array<char>, fn: nat, tbuf: array<char>, tn: nat, i: nat, suffix: nat)
    returns (len: nat)
    requires dst.Length > 0 && dst != fbuf && dst != tbuf
    requires CString(fbuf, fn) && CString(tbuf, tn) && 0 < i <= tn
    requires i == FirstDiff(fbuf[..fn], tbuf[..tn]) && suffix == LastSlash(tbuf[..tn][..i])
    modifies dst
    ensures var r := RelClean(fbuf[..fn], tbuf[..tn]);
      len == |r| && Holds(dst, r) && dst[if len < dst.Length then len else dst.Length - 1] == '\0'
  {
    ghost var t := tbuf[..tn];
    var up := CountUps(fbuf, fn, i);
    len := EmitUps(dst, up);
    len := Emit(dst, len, tbuf[suffix + 1..tn], Ups(up));
    assert tbuf[suffix + 1..tn] == t[suffix + 1..];
    dst[if len < dst.Length then len else dst.Length - 1] := '\0';
  }

  /** A PATH_MAX buffer with the cleaned path. */
  method CleanedCopy(s: string) returns (buf: array<char>, n: nat)
    requires NoNul(s) && |s| < PATH_MAX
    ensures fresh(buf) && CString(buf, n) && buf[..n] == Clean(s)
  {
    buf := CopyString(s);
    var len := PathClean(buf, |s|);
    n := len.value;
  }

  /** lib/util_path.c:130-171. None when a scan reads outside the two cleaned strings. */
  method PathRel(dst: array<char>, from: string, to: string) returns (len: Option<int>)
    requires dst.Length > 0 && NoNul(from) && NoNul(to)
    modifies dst
    ensures |from| >= PATH_MAX || |to| >= PATH_MAX ==> len == Some(-1) && dst[0] == '\0'
    ensures |from| < PATH_MAX && |to| < PATH_MAX ==>
      (len.Some? <==> to != "" && Clean(from) != Clean(to) && FirstDiff(Clean(from), Clean(to)) > 0)
    ensures |from| < PATH_MAX && |to| < PATH_MAX && len.Some? ==>
      && len.value == |Rel(from, to)|
      && Holds(dst, Rel(from, to))
      && dst[if len.value < dst.Length then len.value else dst.Length - 1] == '\0'
  {
    dst[0] := '\0';
    if |from| >= PATH_MAX || |to| >= PATH_MAX {
      return Some(-1);
    }
    var fbuf, fn := CleanedCopy(from);
    var tbuf, tn := CleanedCopy(to);
    var at := Diverge(fbuf, fn, tbuf, tn, to != "");
    StaysInsideIff(Clean(from), Clean(to), to != "");
    if at == None || at.value.0 == 0 {
      StopsOnce(Clean(from), Clean(to), to != "");
      return None;
    }
    StopsAtFirst(Clean(from), Clean(to), to != "", at.value.0);
    var l := EmitRel(dst, fbuf, fn, tbuf, tn, at.value.0, at.value.1);
    return Some(l);
  }
}
