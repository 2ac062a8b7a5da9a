/** lib/util.c: package names and versions inside "name-version_revision", and inside the
    path of a binary package. */
module PkgName {
  import opened Wrappers

  // ---------------------------------------------------------------------
  // What the strings mean
  // ---------------------------------------------------------------------

  predicate Digit(c: char) {
    '0' <= c <= '9'
  }

  predicate Revision(s: string) {
    s != "" && forall c <- s :: Digit(c) || c == '_'
  }

  /** The first c in s. */
  predicate FirstAt(s: string, c: char, u: nat) {
    u < |s| && s[u] == c && forall j :: 0 <= j < u ==> s[j] != c
  }

  /** u is the first underscore: a digit stands before it and a revision after it. */
  predicate VersionAt(v: string, u: nat) {
    && FirstAt(v, '_', u)
    && (exists c <- v[..u] :: Digit(c))
    && Revision(v[u + 1..])
  }

  predicate Version(v: string) {
    exists u :: 0 <= u < |v| && VersionAt(v, u)
  }

  /** pkg is name-version, cut at its last dash. */
  ghost predicate Splits(pkg: string, name: string, version: string) {
    pkg == name + "-" + version && '-' !in version && Version(version)
  }

  ghost predicate ValidPkgver(pkg: string) {
    exists name, version :: Splits(pkg, name, version)
  }

  /** There is at most one way to cut. */
  lemma SplitsOnce(pkg: string, n1: string, v1: string, n2: string, v2: string)
    requires Splits(pkg, n1, v1) && Splits(pkg, n2, v2)
    ensures n1 == n2 && v1 == v2
  {
    CutOnce(n1, '-', v1, n2, v2);
  }

  /** In a string cut at its last c. */
  lemma CutAt(a: string, c: char, b: string)
    requires c !in b
    ensures var s := a + [c] + b;
      s[|a|] == c && s[..|a|] == a && s[|a| + 1..] == b && forall j :: |a| < j < |s| ==> s[j] != c
  {
    var s := a + [c] + b;
    forall j | |a| < j < |s| ensures s[j] != c {
      assert s[j] == b[j - |a| - 1];
    }
  }

  lemma CutOnce(a: string, c: char, b: string, a': string, b': string)
    requires a + [c] + b == a' + [c] + b' && c !in b && c !in b'
    ensures a == a' && b == b'
  {
    CutAt(a, c, b);
    CutAt(a', c, b');
  }

  /** A file name `pkgver.arch` with five more characters. */
  ghost predicate FileName(file: string, pkgver: string, arch: string) {
    exists suffix :: |suffix| == 5 && file == pkgver + "." + arch + suffix && '.' !in arch
  }

  lemma FileNameOnce(file: string, p1: string, a1: string, p2: string, a2: string)
    requires FileName(file, p1, a1) && FileName(file, p2, a2)
    ensures p1 == p2 && a1 == a2
  {
    var n := |file| - 5;
    assert file[..n] == p1 + "." + a1;
    assert file[..n] == p2 + "." + a2;
    CutOnce(p1, '.', a1, p2, a2);
  }

  // ---------------------------------------------------------------------
  // The scanning functions
  // ---------------------------------------------------------------------

  /** strrchr: the last c, or the length. */
  method LastOf(s: string, c: char) returns (i: nat)
    ensures i <= |s|
    ensures i < |s| ==> s[i] == c && c !in s[i + 1..]
    ensures i == |s| ==> c !in s
  {
    var n := |s|;
    while n > 0
      invariant 0 <= n <= |s| && c !in s[n..]
    {
      n := n - 1;
      if s[n] == c {
        return n;
      }
      assert s[n..] == [s[n]] + s[n + 1..];
    }
    assert s[0..] == s;
    return |s|;
  }

  /** strchr: the first c at or after `from`, or the length. */
  method FirstOf(s: string, c: char, from: nat) returns (i: nat)
    requires from <= |s|
    ensures from <= i <= |s| && c !in s[from..i] && (i < |s| ==> s[i] == c)
  {
    i := from;
    while i < |s|
      invariant from <= i <= |s| && c !in s[from..i]
    {
      if s[i] == c {
        return i;
      }
      assert s[from..i + 1] == s[from..i] + [s[i]];
      i := i + 1;
    }
  }

  /** lib/util.c:45-54. */
  method IsRevision(s: string) returns (ok: bool)
    ensures ok == Revision(s)
  {
    if s == "" {
      return false;
    }
    var i := 0;
    while i < |s| && (Digit(s[i]) || s[i] == '_')
      invariant i <= |s| && forall j :: 0 <= j < i ==> Digit(s[j]) || s[j] == '_'
    {
      i := i + 1;
    }
    assert i < |s| ==> s[i] in s;
    return i == |s|;
  }

  lemma NoVersionBefore(v: string, i: nat)
    requires FirstAt(v, '_', i) && forall c <- v[..i] :: !Digit(c)
    ensures !Version(v)
  {
    assert forall u :: 0 <= u < |v| && FirstAt(v, '_', u) ==> u == i;
  }

  lemma FirstUnderscore(v: string, r: nat)
    requires FirstAt(v, '_', r) && exists c <- v[..r] :: Digit(c)
    ensures Version(v) <==> Revision(v[r + 1..])
  {
    assert forall u :: 0 <= u < |v| && FirstAt(v, '_', u) ==> u == r;
    assert Revision(v[r + 1..]) ==> VersionAt(v, r);
  }

  /** The loops at lib/util.c:130-141 and 264-271, on what follows the last dash. */
  method ScanVersion(v: string) returns (ok: bool)
    ensures ok == Version(v)
  {
    for i := 0 to |v|
      invariant forall j :: 0 <= j < i ==> v[j] != '_'
      invariant forall c <- v[..i] :: Digit(c) ==> '_' !in v
    {
      assert v[..i + 1] == v[..i] + [v[i]];
      if v[i] == '_' {
        assert v[i] in v;
        NoVersionBefore(v, i);
        return false;
      }
      if Digit(v[i]) {
        var r := FirstOf(v, '_', i + 1);
        assert forall j :: i < j < r ==> v[j] == v[i + 1..r][j - i - 1];
        if r < |v| {
          assert v[..r][i] == v[i];
          assert v[i] in v[..r];
          FirstUnderscore(v, r);
          ok := IsRevision(v[r + 1..]);
          return ok;
        }
      }
    }
    assert v[..|v|] == v;
    return false;
  }

  /** lib/util.c:118-143: the offset of the version. */
  method PkgVersion(pkg: string) returns (r: Option<nat>)
    ensures r.Some? <==> ValidPkgver(pkg)
    ensures r.Some? ==> 0 < r.value <= |pkg| && Splits(pkg, pkg[..r.value - 1], pkg[r.value..])
  {
    var p := LastOf(pkg, '-');
    if p == |pkg| {
      NoDash(pkg);
      return None;
    }
    LastDash(pkg, p);
    var ok := ScanVersion(pkg[p + 1..]);
    return if ok then Some(p + 1) else None;
  }

  lemma HasSeparator(a: string, c: char, b: string)
    ensures c in a + [c] + b
  {
    assert (a + [c] + b)[|a|] == c;
  }

  lemma NoDash(pkg: string)
    requires '-' !in pkg
    ensures !ValidPkgver(pkg)
  {
    forall name, version ensures !Splits(pkg, name, version) {
      HasSeparator(name, '-', version);
    }
  }

  lemma LastDash(pkg: string, p: nat)
    requires p < |pkg| && pkg[p] == '-' && '-' !in pkg[p + 1..]
    ensures pkg == pkg[..p] + "-" + pkg[p + 1..]
    ensures ValidPkgver(pkg) <==> Version(pkg[p + 1..])
    ensures Version(pkg[p + 1..]) <==> Splits(pkg, pkg[..p], pkg[p + 1..])
  {
    assert pkg == pkg[..p] + "-" + pkg[p + 1..];
    forall name, version | Splits(pkg, name, version) ensures version == pkg[p + 1..] && Version(pkg[p + 1..]) {
      CutOnce(name, '-', version, pkg[..p], pkg[p + 1..]);
    }
    assert Version(pkg[p + 1..]) ==> Splits(pkg, pkg[..p], pkg[p + 1..]);
  }

  /** lib/util.c:248-282: given enough room, it succeeds exactly when the version is
      found, and leaves what stands before the dash. */
  method Name(dst: array<char>, len: nat, pkg: string) returns (ok: bool, ghost n: nat)
    requires len <= dst.Length
    modifies dst
    ensures ok ==> ValidPkgver(pkg) && n < |pkg| && n < len && Splits(pkg, pkg[..n], pkg[n + 1..])
    ensures ok ==> dst[..n] == pkg[..n] && dst[n] == '\0' && dst[n + 1..] == old(dst[n + 1..])
    ensures !ok ==> dst[..] == old(dst[..])
    ensures !ok && ValidPkgver(pkg) ==> n < |pkg| && n + 1 > len && Splits(pkg, pkg[..n], pkg[n + 1..])
  {
    n := 0;
    var p := LastOf(pkg, '-');
    if p == |pkg| {
      NoDash(pkg);
      return false, n;
    }
    LastDash(pkg, p);
    var valid := ScanVersion(pkg[p + 1..]);
    n := p;
    if !valid || p + 1 > len {
      return false, n;
    }
    for i := 0 to p
      invariant dst[..i] == pkg[..i]
      invariant forall j :: i <= j < dst.Length ==> dst[j] == old(dst[j])
    {
      dst[i] := pkg[i];
    }
    dst[p] := '\0';
    return true, n;
  }

  // ---------------------------------------------------------------------
  // Binary package paths
  // ---------------------------------------------------------------------

  /** What follows the last slash. */
  ghost predicate IsFileOf(path: string, file: string) {
    '/' !in file && (file == path || exists dir :: path == dir + "/" + file)
  }

  lemma FileOnce(path: string, f: string, g: string)
    requires IsFileOf(path, f) && IsFileOf(path, g)
    ensures f == g
  {
    if d :| path == d + "/" + f {
      HasSeparator(d, '/', f);
      if e :| path == e + "/" + g {
        CutOnce(d, '/', f, e, g);
      }
    } else if e :| path == e + "/" + g {
      HasSeparator(e, '/', g);
    }
  }

  /** The file name at the end of the path holds this pkgver and architecture. */
  ghost predicate Holds(path: string, pkgver: string, arch: string) {
    exists file :: IsFileOf(path, file) && FileName(file, pkgver, arch)
  }

  lemma HoldsHere(path: string, file: string, pkgver: string, arch: string)
    requires IsFileOf(path, file)
    ensures Holds(path, pkgver, arch) <==> FileName(file, pkgver, arch)
  {
    if f :| IsFileOf(path, f) && FileName(f, pkgver, arch) {
      FileOnce(path, file, f);
    }
  }

  /** Cut a path at its last slash, drop the last five characters and cut the rest at
      its last dot. */
  method Parts(path: string) returns (r: Option<(string, string)>)
    ensures forall v, a :: r == Some((v, a)) <==> Holds(path, v, a)
  {
    var s := LastOf(path, '/');
    if s < |path| {
      assert path == path[..s] + "/" + path[s + 1..];
    }
    var fname := if s < |path| then path[s + 1..] else path;
    assert IsFileOf(path, fname);
    forall v, a ensures Holds(path, v, a) <==> FileName(fname, v, a) {
      HoldsHere(path, fname, v, a);
    }
    r := FileParts(fname);
  }

  method FileParts(file: string) returns (r: Option<(string, string)>)
    ensures forall v, a :: r == Some((v, a)) <==> FileName(file, v, a)
  {
    var d := 0;
    if |file| >= 5 {
      d := LastOf(file[..|file| - 5], '.');
    }
    if |file| < 5 || d == |file| - 5 {
      forall v, arch ensures !FileName(file, v, arch) { NoFileName(file, v, arch); }
      return None;
    }
    var n := |file| - 5;
    assert file[..n][d + 1..] == file[d + 1..n];
    StemCut(file, d);
    forall v, arch | FileName(file, v, arch) ensures v == file[..d] && arch == file[d + 1..n] {
      FileNameOnce(file, v, arch, file[..d], file[d + 1..n]);
    }
    return Some((file[..d], file[d + 1..n]));
  }

  lemma StemCut(file: string, d: nat)
    requires |file| >= 5 && d < |file| - 5 && file[d] == '.' && '.' !in file[d + 1..|file| - 5]
    ensures FileName(file, file[..d], file[d + 1..|file| - 5])
  {
    var n := |file| - 5;
    assert file == file[..d] + "." + file[d + 1..n] + file[n..];
  }

  lemma StemHasDot(pkgver: string, arch: string, suffix: string)
    ensures var s := pkgver + "." + arch + suffix; |s| >= |suffix| && '.' in s[..|s| - |suffix|]
  {
    var s := pkgver + "." + arch + suffix;
    assert s[..|s| - |suffix|] == pkgver + "." + arch;
    HasSeparator(pkgver, '.', arch);
  }

  lemma NoFileName(file: string, pkgver: string, arch: string)
    requires |file| < 5 || '.' !in file[..|file| - 5]
    ensures !FileName(file, pkgver, arch)
  {
    forall suffix ensures !(|suffix| == 5 && file == pkgver + "." + arch + suffix) {
      StemHasDot(pkgver, arch, suffix);
    }
  }

  /** lib/util.c:145-183: the pkgver that the file name holds, when it is a valid one. */
  method BinpkgPkgver(path: string) returns (r: Option<string>)
    ensures forall v :: r == Some(v) <==> (ValidPkgver(v) && exists arch :: Holds(path, v, arch))
  {
    var parts := Parts(path);
    if parts == None {
      return None;
    }
    assert Holds(path, parts.value.0, parts.value.1);
    var version := PkgVersion(parts.value.0);
    return if version == None then None else Some(parts.value.0);
  }

  /** lib/util.c:185-220: the architecture, whatever stands before it. */
  method BinpkgArch(path: string) returns (r: Option<string>)
    ensures forall a :: r == Some(a) <==> exists v :: Holds(path, v, a)
  {
    var parts := Parts(path);
    if parts == None {
      return None;
    }
    assert Holds(path, parts.value.0, parts.value.1);
    return Some(parts.value.1);
  }

  /** lib/util.c:320-339: the path of a package in its repository, or in the cache when
      the repository is remote; None when it does not fit. */
  method PkgPath(dstsz: nat, pkgver: string, arch: string, repository: string, remote: bool, cachedir: string)
    returns (r: Option<string>)
    ensures r.Some? <==> |(if remote then cachedir else repository)| + |pkgver| + |arch| + 7 < dstsz
    ensures r.Some? ==> r.value == (if remote then cachedir else repository) + "/" + pkgver + "." + arch + ".xbps"
  {
    var loc := if remote then cachedir else repository;
    var path := loc + "/" + pkgver + "." + arch + ".xbps";
    return if |path| >= dstsz then None else Some(path);
  }

  /** Printing the path of a package and parsing it gives the package back. */
  method PathRoundTrip(dstsz: nat, pkgver: string, arch: string, repository: string, remote: bool, cachedir: string)
    returns (path: Option<string>, v: Option<string>, a: Option<string>)
    requires ValidPkgver(pkgver) && '/' !in pkgver && '/' !in arch && '.' !in arch
    ensures path.Some? ==> v == Some(pkgver) && a == Some(arch)
  {
    path := PkgPath(dstsz, pkgver, arch, repository, remote, cachedir);
    v, a := None, None;
    if path.Some? {
      var loc := if remote then cachedir else repository;
      ghost var base := pkgver + "." + arch + ".xbps";
      assert path.value == loc + "/" + base;
      PrintedHolds(loc, pkgver, arch);
      v := BinpkgPkgver(path.value);
      a := BinpkgArch(path.value);
    }
  }

  lemma PrintedHolds(loc: string, pkgver: string, arch: string)
    requires '/' !in pkgver && '/' !in arch && '.' !in arch
    ensures Holds(loc + "/" + (pkgver + "." + arch + ".xbps"), pkgver, arch)
  {
    var base := pkgver + "." + arch + ".xbps";
    assert |".xbps"| == 5;
    assert FileName(base, pkgver, arch);
    assert IsFileOf(loc + "/" + base, base);
  }
}
