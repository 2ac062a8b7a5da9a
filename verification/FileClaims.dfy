/** Which calls of collect_file a transaction entry causes, read off its file lists. */
module FileClaims {
  import opened Wrappers
  import opened TransactionFiles
  import opened FileConflicts

  /** All descriptors of a package in the order they are collected. */
  function Descs(l: FileList): seq<FileDesc> {
    l.files + l.confFiles + l.links + l.dirs
  }

  /** The list a position falls into decides the type. */
  function TypeAt(l: FileList, i: nat): FileType {
    if i < |l.files| then File
    else if i < |l.files| + |l.confFiles| then ConfFile
    else if i < |l.files| + |l.confFiles| + |l.links| then Link
    else Dir
  }

  /** The last checksum among the descriptors up to position i. */
  ghost predicate ShaUpTo(ds: seq<FileDesc>, i: nat, sha: Option<string>)
    requires i < |ds|
  {
    match sha
    case None => forall k :: 0 <= k <= i ==> ds[k].sha256.None?
    case Some(v) => exists k :: 0 <= k <= i && ds[k].sha256 == Some(v) && forall m :: k < m <= i ==> ds[m].sha256.None?
  }

  /** The owner of the claim at position i: the package's, with type, checksum and target
      from the descriptor there. */
  ghost predicate OwnerIs(ds: seq<FileDesc>, i: nat, typ: FileType, base: Owner, removefile: bool, o: Owner)
    requires i < |ds|
  {
    && o == base.(typ := typ, sha256 := o.sha256, target := o.target)
    && o.target == (if typ == Link then ds[i].target else "")
    && if removefile && (typ == File || typ == ConfFile) then ShaUpTo(ds, i, o.sha256) else o.sha256.None?
  }

  ghost predicate OwnerAt(l: FileList, i: nat, base: Owner, removefile: bool, o: Owner)
    requires i < |Descs(l)|
  {
    OwnerIs(Descs(l), i, TypeAt(l, i), base, removefile, o)
  }

  ghost predicate LastSome(descs: seq<FileDesc>, k: nat, sha: Option<string>)
    requires k < |descs|
  {
    sha.Some? && descs[k].sha256 == sha && forall m :: k < m < |descs| ==> descs[m].sha256.None?
  }

  lemma {:induction false} LastShaIs(descs: seq<FileDesc>, before: Option<string>)
    ensures var r := LastSha(descs, before);
      || (r == before && forall k :: 0 <= k < |descs| ==> descs[k].sha256.None?)
      || (exists k :: 0 <= k < |descs| && LastSome(descs, k, r))
  {
    if descs != [] {
      var n := |descs| - 1;
      LastShaIs(descs[..n], before);
      assert descs[n].sha256.None? ==> LastSha(descs, before) == LastSha(descs[..n], before);
      assert forall k :: 0 <= k < n ==> descs[..n][k] == descs[k];
      assert descs[n].sha256.None? ==> forall k :: 0 <= k < n && LastSome(descs[..n], k, LastSha(descs, before)) ==>
        LastSome(descs, k, LastSha(descs, before));
      assert descs[n].sha256.Some? ==> LastSome(descs, n, descs[n].sha256);
    }
  }

  lemma {:induction false} LastShaUpTo(ds: seq<FileDesc>, i: nat)
    requires i < |ds|
    ensures ShaUpTo(ds, i, LastSha(ds[..i + 1], None))
  {
    var front := ds[..i + 1];
    LastShaIs(front, None);
    assert forall k :: 0 <= k <= i ==> front[k] == ds[k];
    if sha: Option<string> :| sha == LastSha(front, None) && sha.Some? {
      var k: nat :| k < |front| && LastSome(front, k, sha);
    }
  }

  /** The checksum goes on from the files into the configuration files. */
  lemma {:induction false} LastShaOn(a: seq<FileDesc>, b: seq<FileDesc>)
    ensures LastSha(a + b, None) == LastSha(b, LastSha(a, None))
    decreases |b|
  {
    if b == [] {
      assert a + b == a;
    } else {
      var n := |b| - 1;
      assert (a + b)[..|a + b| - 1] == a + b[..n];
      LastShaOn(a, b[..n]);
    }
  }

  lemma {:induction false} ShaMore(ds: seq<FileDesc>, es: seq<FileDesc>, i: nat, sha: Option<string>)
    requires i < |ds| && ShaUpTo(ds, i, sha)
    ensures ShaUpTo(ds + es, i, sha)
  {
    assert forall k :: 0 <= k <= i ==> (ds + es)[k] == ds[k];
  }

  lemma {:induction false} FilesAt(files: seq<FileDesc>, rest: seq<FileDesc>, base: Owner, removefile: bool, i: nat)
    requires i < |files|
    ensures OwnerIs(files + rest, i, File, base, removefile, ClaimsOf(files, File, None, base, removefile)[i].owner)
  {
    LastShaUpTo(files, i);
    ShaMore(files, rest, i, LastSha(files[..i + 1], None));
  }

  lemma {:induction false} ConfFileSha(files: seq<FileDesc>, confFiles: seq<FileDesc>, i: nat)
    requires i < |confFiles|
    ensures ShaUpTo(files + confFiles, |files| + i, LastSha(confFiles[..i + 1], LastSha(files, None)))
  {
    var ds, j := files + confFiles, |files| + i;
    LastShaUpTo(ds, j);
    LastShaOn(files, confFiles[..i + 1]);
    assert ds[..j + 1] == files + confFiles[..i + 1];
  }

  lemma {:induction false} ConfFilesAt(files: seq<FileDesc>, confFiles: seq<FileDesc>, rest: seq<FileDesc>, base: Owner,
    removefile: bool, i: nat)
    requires i < |confFiles|
    ensures OwnerIs(files + confFiles + rest, |files| + i, ConfFile, base, removefile,
      ClaimsOf(confFiles, ConfFile, LastSha(files, None), base, removefile)[i].owner)
  {
    ConfFileSha(files, confFiles, i);
    ShaMore(files + confFiles, rest, |files| + i, LastSha(confFiles[..i + 1], LastSha(files, None)));
  }

  /** Links and directories have no checksum. */
  lemma {:induction false} OthersAt(ds: seq<FileDesc>, at: nat, descs: seq<FileDesc>, typ: FileType, base: Owner,
    removefile: bool, i: nat)
    requires i < |descs| && at < |ds| && ds[at] == descs[i] && (typ == Link || typ == Dir)
    ensures OwnerIs(ds, at, typ, base, removefile, ClaimsOf(descs, typ, None, base, removefile)[i].owner)
  {
  }

  lemma DescsSplit(l: FileList)
    ensures Descs(l) == l.files + (l.confFiles + l.links + l.dirs)
    ensures Descs(l) == l.files + l.confFiles + (l.links + l.dirs)
  {
  }

  /** Element i of four sequences put together. */
  function Pick<T>(p: seq<T>, q: seq<T>, r: seq<T>, s: seq<T>, i: nat): T
    requires i < |p| + |q| + |r| + |s|
  {
    if i < |p| then p[i]
    else if i < |p| + |q| then q[i - |p|]
    else if i < |p| + |q| + |r| then r[i - |p| - |q|]
    else s[i - |p| - |q| - |r|]
  }

  lemma ConcatAt<T>(p: seq<T>, q: seq<T>, r: seq<T>, s: seq<T>, i: nat)
    requires i < |p| + |q| + |r| + |s|
    ensures |p + q + r + s| == |p| + |q| + |r| + |s| && (p + q + r + s)[i] == Pick(p, q, r, s, i)
  {
  }

  /** The descriptor at position i, by the list it falls into, and its claim. */
  function DescOf(l: FileList, i: nat): FileDesc
    requires i < |Descs(l)|
  {
    Pick(l.files, l.confFiles, l.links, l.dirs, i)
  }

  function ClaimAt(l: FileList, base: Owner, removefile: bool, i: nat): (r: Claim)
    requires i < |Descs(l)|
    ensures r.path == DescOf(l, i).path
  {
    Pick(ClaimsOf(l.files, File, None, base, removefile),
      ClaimsOf(l.confFiles, ConfFile, LastSha(l.files, None), base, removefile),
      ClaimsOf(l.links, Link, None, base, removefile), ClaimsOf(l.dirs, Dir, None, base, removefile), i)
  }

  lemma {:induction false} ClaimAtIs(l: FileList, base: Owner, removefile: bool, i: nat)
    requires i < |Descs(l)|
    ensures var cs := FileClaims(l, base, removefile);
      |cs| == |Descs(l)| && cs[i] == ClaimAt(l, base, removefile, i) && cs[i].removefile == removefile
  {
    ConcatAt(ClaimsOf(l.files, File, None, base, removefile),
      ClaimsOf(l.confFiles, ConfFile, LastSha(l.files, None), base, removefile),
      ClaimsOf(l.links, Link, None, base, removefile), ClaimsOf(l.dirs, Dir, None, base, removefile), i);
    assert OfPackage(FileClaims(l, base, removefile)[i], base.pkgname, base.index, removefile);
  }

  lemma {:induction false} ClaimAtPath(l: FileList, base: Owner, removefile: bool, i: nat)
    requires i < |Descs(l)|
    ensures ClaimAt(l, base, removefile, i).path == Descs(l)[i].path
  {
    DescAt(l, i);
  }

  lemma {:induction false} DescAt(l: FileList, i: nat)
    requires i < |Descs(l)|
    ensures Descs(l)[i] == DescOf(l, i)
  {
    ConcatAt(l.files, l.confFiles, l.links, l.dirs, i);
  }

  lemma {:induction false} FileOwner(l: FileList, base: Owner, removefile: bool, i: nat)
    requires i < |l.files|
    ensures OwnerIs(Descs(l), i, File, base, removefile, ClaimsOf(l.files, File, None, base, removefile)[i].owner)
  {
    DescsSplit(l);
    FilesAt(l.files, l.confFiles + l.links + l.dirs, base, removefile, i);
  }

  lemma {:induction false} ConfFileOwner(l: FileList, base: Owner, removefile: bool, i: nat)
    requires i < |l.confFiles|
    ensures OwnerIs(Descs(l), |l.files| + i, ConfFile, base, removefile,
      ClaimsOf(l.confFiles, ConfFile, LastSha(l.files, None), base, removefile)[i].owner)
  {
    DescsSplit(l);
    ConfFilesAt(l.files, l.confFiles, l.links + l.dirs, base, removefile, i);
  }

  lemma {:induction false} OtherOwner(l: FileList, base: Owner, removefile: bool, i: nat)
    requires |l.files| + |l.confFiles| <= i < |Descs(l)|
    ensures OwnerIs(Descs(l), i, TypeAt(l, i), base, removefile, ClaimAt(l, base, removefile, i).owner)
  {
    var b, c := |l.files| + |l.confFiles|, |l.files| + |l.confFiles| + |l.links|;
    ConcatAt(l.files, l.confFiles, l.links, l.dirs, i);
    if i < c {
      OthersAt(Descs(l), i, l.links, Link, base, removefile, i - b);
    } else {
      OthersAt(Descs(l), i, l.dirs, Dir, base, removefile, i - c);
    }
  }

  lemma {:induction false} FileAt(l: FileList, base: Owner, removefile: bool, i: nat)
    requires i < |l.files|
    ensures OwnerAt(l, i, base, removefile, ClaimAt(l, base, removefile, i).owner)
  {
    FileOwner(l, base, removefile, i);
  }

  lemma {:induction false} ConfFileClaim(l: FileList, base: Owner, removefile: bool, i: nat, j: nat)
    requires j < |l.confFiles| && i == |l.files| + j
    ensures TypeAt(l, i) == ConfFile
    ensures ClaimAt(l, base, removefile, i)
      == ClaimsOf(l.confFiles, ConfFile, LastSha(l.files, None), base, removefile)[j]
  {
  }

  lemma {:induction false} ConfFileAt(l: FileList, base: Owner, removefile: bool, i: nat, j: nat)
    requires j < |l.confFiles| && i == |l.files| + j
    ensures OwnerAt(l, i, base, removefile, ClaimAt(l, base, removefile, i).owner)
  {
    ConfFileClaim(l, base, removefile, i, j);
    ConfFileOwner(l, base, removefile, j);
  }

  lemma {:induction false} ClaimAtOwner(l: FileList, base: Owner, removefile: bool, i: nat)
    requires i < |Descs(l)|
    ensures OwnerAt(l, i, base, removefile, ClaimAt(l, base, removefile, i).owner)
  {
    if i < |l.files| {
      FileAt(l, base, removefile, i);
    } else if i < |l.files| + |l.confFiles| {
      ConfFileAt(l, base, removefile, i, i - |l.files|);
    } else {
      OtherOwner(l, base, removefile, i);
    }
  }

  /** The claims of a file list are one per descriptor, in order, with its path, and with
      type, checksum and link target as the descriptor and its list say. */
  lemma {:induction false} FileClaimsAt(l: FileList, base: Owner, removefile: bool, i: nat)
    requires i < |Descs(l)|
    ensures var cs := FileClaims(l, base, removefile);
      && |cs| == |Descs(l)| && cs[i].path == Descs(l)[i].path && cs[i].removefile == removefile
      && OwnerAt(l, i, base, removefile, cs[i].owner)
  {
    ClaimAtIs(l, base, removefile, i);
    ClaimAtPath(l, base, removefile, i);
    ClaimAtOwner(l, base, removefile, i);
  }

  /** The flags of the owner of a claim by entry e at this position of the transaction. */
  predicate Flagged(o: Owner, e: Entry, index: nat, preserve: bool, removepkg: bool) {
    && o.pkgname == e.pkgname && o.index == index && o.update == (e.ttype == Update)
    && o.preserve == preserve && o.removepkg == removepkg
  }

  /** An entry that installs, reinstalls or updates claims to create, and later extracts,
      every path of its new files; any other entry none. */
  lemma {:induction false} EntryCreates(e: Entry, index: nat, i: nat)
    ensures var m := MemberOf(e, index);
      && |m.creates| == |m.extracts|
      && |m.creates| == (if e.ttype == Install || e.ttype == Reinstall || e.ttype == Update
                         then |Descs(e.newFiles)| else 0)
      && (i < |m.creates| ==>
        && m.creates[i].path == m.extracts[i] == Descs(e.newFiles)[i].path && !m.creates[i].removefile
        && OwnerAt(e.newFiles, i, m.creates[i].owner, false, m.creates[i].owner)
        && Flagged(m.creates[i].owner, e, index, false, false))
  {
    var m := MemberOf(e, index);
    if i < |m.creates| {
      var base := Owner(e.pkgname, index, File, None, "", false, e.ttype == Update, false);
      FileClaimsAt(e.newFiles, base, false, i);
      PathsAt(e.newFiles, i);
    }
  }

  lemma {:induction false} PathsAt(l: FileList, i: nat)
    requires i < |Descs(l)|
    ensures |Paths(l)| == |Descs(l)| && Paths(l)[i] == Descs(l)[i].path
  {
    ConcatAt(PathsOf(l.files), PathsOf(l.confFiles), PathsOf(l.links), PathsOf(l.dirs), i);
    ConcatAt(l.files, l.confFiles, l.links, l.dirs, i);
  }

  /** An entry that is not held or only configured claims to remove every path of its
      installed version, under its own preserve flag. */
  lemma {:induction false} EntryRemoves(e: Entry, index: nat, i: nat)
    ensures var m := MemberOf(e, index);
      && |m.removes| == (if e.installed.None? || e.ttype == Hold || e.ttype == Configure
                         then 0 else |Descs(e.installed.value)|)
      && (i < |m.removes| ==>
        && m.removes[i].path == Descs(e.installed.value)[i].path && m.removes[i].removefile
        && OwnerAt(e.installed.value, i, m.removes[i].owner, true, m.removes[i].owner)
        && Flagged(m.removes[i].owner, e, index, e.preserve, e.ttype == Remove))
  {
    var m := MemberOf(e, index);
    if i < |m.removes| {
      var base := Owner(e.pkgname, index, File, None, "", e.preserve, e.ttype == Update, e.ttype == Remove);
      FileClaimsAt(e.installed.value, base, true, i);
    }
  }

  // ---------------------------------------------------------------------
  // Two packages with one path
  // ---------------------------------------------------------------------

  lemma {:induction false} CreatePosition(members: seq<Member>, k: nat, n: nat, i: nat)
    requires k < n <= |members| && i < |members[k].creates|
    ensures var at := |ClaimsUpTo(members, k)| + i;
      at < |ClaimsUpTo(members, n)| && ClaimsUpTo(members, n)[at] == members[k].creates[i]
      && |ClaimsUpTo(members, k)| + |members[k].creates| <= |ClaimsUpTo(members, n)|
    decreases n
  {
    if k < n - 1 {
      CreatePosition(members, k, n - 1, i);
    }
  }

  /** Two members that create one path, not both as a directory: without ignoring conflicts
      the collection of the whole transaction fails. */
  lemma ClashReported(ms: seq<Member>, a: nat, b: nat, i: nat, j: nat)
    requires MembersOk(ms) && a < b < |ms| && i < |ms[a].creates| && j < |ms[b].creates|
    requires CreateBoth(ms[a].creates[i], ms[b].creates[j])
    ensures CollectMembers(ms, |ms|, false).1 != 0
  {
    var n := |ms|;
    CreatePosition(ms, a, n, i);
    CreatePosition(ms, b, n, j);
    CreatePosition(ms, a, b, i);
    var cs := ClaimsUpTo(ms, n);
    assert CreateBoth(cs[|ClaimsUpTo(ms, a)| + i], cs[|ClaimsUpTo(ms, b)| + j]);
    CollectionCode(ms, false);
  }

  /** Both entries unpack and list one path, not both as a directory. */
  ghost predicate ListBoth(d: Entry, i: nat, e: Entry, j: nat) {
    && Unpacks(d.ttype) && Unpacks(e.ttype) && i < |Descs(d.newFiles)| && j < |Descs(e.newFiles)|
    && Descs(d.newFiles)[i].path == Descs(e.newFiles)[j].path
    && !(TypeAt(d.newFiles, i) == Dir && TypeAt(e.newFiles, j) == Dir)
  }

  /** ... then whatever their positions, their claims on that path clash. */
  lemma {:induction false} ListedClash(d: Entry, i: nat, a: nat, e: Entry, j: nat, b: nat)
    requires ListBoth(d, i, e, j)
    ensures i < |MemberOf(d, a).creates| && j < |MemberOf(e, b).creates|
    ensures CreateBoth(MemberOf(d, a).creates[i], MemberOf(e, b).creates[j])
  {
    EntryCreates(d, a, i);
    EntryCreates(e, b, j);
  }
}
