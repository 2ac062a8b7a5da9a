/** Collecting the files of a transaction: which package creates and which one
    removes each path, and at which position of the transaction. */
module TransactionFiles {
  import opened Sequences
  import opened Wrappers

  const EPERM := 1
  const EEXIST := 17

  datatype FileType = Link | Dir | File | ConfFile

  datatype TransType = Install | Reinstall | Update | Remove | Hold | Configure

  /** The `old` (here `gone`) or `new` (here `made`) half of an item. */
  datatype Owner = Owner(pkgname: string, index: nat, typ: FileType, sha256: Option<string>,
    target: string, preserve: bool, update: bool, removepkg: bool)

  datatype Item = Item(file: string, gone: Option<Owner>, made: Option<Owner>)

  /** One call of collect_file. */
  datatype Claim = Claim(path: string, owner: Owner, removefile: bool)

  /** An entry of a files.plist. */
  datatype FileDesc = FileDesc(path: string, sha256: Option<string>, target: string)

  datatype FileList = FileList(files: seq<FileDesc>, confFiles: seq<FileDesc>, links: seq<FileDesc>,
    dirs: seq<FileDesc>)

  /** A transaction member: what it will unpack, and what its installed version,
      if any, owns; an earlier removal may have got half way. */
  datatype Entry = Entry(pkgname: string, ttype: TransType, preserve: bool, removeAndUpdate: bool,
    newFiles: FileList, installed: Option<FileList>, halfRemoved: bool)

  /** What the planner needs to know of a transaction member: the calls of
      collect_file it causes, whether its commit deletes the obsolete paths planned
      for it, and the paths it then extracts. */
  datatype Member = Member(pkgname: string, creates: seq<Claim>, removes: seq<Claim>, deletes: bool,
    extracts: seq<string>)

  /** The hash table of items by path and the item array in insertion order. */
  datatype Collected = Collected(table: map<string, Item>, order: seq<string>)

  // ---------------------------------------------------------------------
  // The claims of one package
  // ---------------------------------------------------------------------

  /** The checksum variable is not reset between entries: an entry without one
      inherits the last one seen. */
  function LastSha(descs: seq<FileDesc>, before: Option<string>): Option<string> {
    if descs == [] then before
    else
      var d := descs[|descs| - 1];
      if d.sha256.Some? then d.sha256 else LastSha(descs[..|descs| - 1], before)
  }

  predicate OfPackage(c: Claim, pkgname: string, index: nat, removefile: bool) {
    c.owner.pkgname == pkgname && c.owner.index == index && c.removefile == removefile
  }

  predicate AllOf(cs: seq<Claim>, pkgname: string, index: nat, removefile: bool) {
    forall i :: 0 <= i < |cs| ==> OfPackage(cs[i], pkgname, index, removefile)
  }

  function ClaimOf(d: FileDesc, typ: FileType, sha: Option<string>, base: Owner, removefile: bool): Claim {
    Claim(d.path, base.(typ := typ, sha256 := sha, target := if typ == Link then d.target else ""), removefile)
  }

  function ClaimsOf(descs: seq<FileDesc>, typ: FileType, sha: Option<string>, base: Owner,
    removefile: bool): (r: seq<Claim>)
    ensures |r| == |descs|
    ensures forall i :: 0 <= i < |r| ==>
      r[i].path == descs[i].path && OfPackage(r[i], base.pkgname, base.index, removefile)
  {
    seq(|descs|, i requires 0 <= i < |descs| => ClaimOf(descs[i], typ,
      if removefile && (typ == File || typ == ConfFile) then LastSha(descs[..i + 1], sha) else None, base, removefile))
  }

  function FileClaims(l: FileList, base: Owner, removefile: bool): (r: seq<Claim>)
    ensures AllOf(r, base.pkgname, base.index, removefile)
  {
    ClaimsOf(l.files, File, None, base, removefile)
    + ClaimsOf(l.confFiles, ConfFile, LastSha(l.files, None), base, removefile)
    + ClaimsOf(l.links, Link, None, base, removefile)
    + ClaimsOf(l.dirs, Dir, None, base, removefile)
  }

  predicate Unpacks(t: TransType) {
    t == Install || t == Reinstall || t == Update
  }

  predicate Ignored(t: TransType) {
    t == Hold || t == Configure
  }

  function PathsOf(descs: seq<FileDesc>): seq<string> {
    seq(|descs|, i requires 0 <= i < |descs| => descs[i].path)
  }

  function Paths(l: FileList): seq<string> {
    PathsOf(l.files) + PathsOf(l.confFiles) + PathsOf(l.links) + PathsOf(l.dirs)
  }

  function NewClaims(e: Entry, index: nat): seq<Claim> {
    if !Unpacks(e.ttype) then []
    else FileClaims(e.newFiles, Owner(e.pkgname, index, File, None, "", false, e.ttype == Update, false), false)
  }

  function OldClaims(e: Entry, index: nat): seq<Claim> {
    if Ignored(e.ttype) || e.installed.None? then []
    else FileClaims(e.installed.value,
      Owner(e.pkgname, index, File, None, "", e.preserve, e.ttype == Update, e.ttype == Remove), true)
  }

  /** Removal deletes the obsolete paths unless the package is already gone, was half
      removed or is only removed to be updated; unpacking deletes them unless it must
      preserve. */
  predicate DeletesObsoletes(e: Entry) {
    && !Ignored(e.ttype)
    && if e.ttype == Remove then e.installed.Some? && !e.halfRemoved && !e.removeAndUpdate else !e.preserve
  }

  function MemberOf(e: Entry, index: nat): Member {
    Member(e.pkgname, NewClaims(e, index), OldClaims(e, index), DeletesObsoletes(e),
      if Unpacks(e.ttype) then Paths(e.newFiles) else [])
  }

  function Members(entries: seq<Entry>): seq<Member> {
    seq(|entries|, i requires 0 <= i < |entries| => MemberOf(entries[i], i + 1))
  }

  /** The claims are the member's own, and it extracts only what it claims. */
  ghost predicate MemberOk(m: Member, index: nat) {
    && AllOf(m.creates, m.pkgname, index, false) && AllOf(m.removes, m.pkgname, index, true)
    && forall i :: 0 <= i < |m.extracts| ==> Claims(m.creates, m.extracts[i])
  }

  ghost predicate Claims(cs: seq<Claim>, path: string) {
    exists i :: 0 <= i < |cs| && cs[i].path == path
  }

  ghost predicate MembersOk(members: seq<Member>) {
    forall i :: 0 <= i < |members| ==> MemberOk(members[i], i + 1)
  }

  /** The claims are for these paths, in this order. */
  predicate ForPaths(cs: seq<Claim>, paths: seq<string>) {
    |cs| == |paths| && forall i :: 0 <= i < |cs| ==> cs[i].path == paths[i]
  }

  lemma ForPathsConcat(cs: seq<Claim>, ds: seq<Claim>, p: seq<string>, q: seq<string>)
    requires ForPaths(cs, p) && ForPaths(ds, q)
    ensures ForPaths(cs + ds, p + q)
  {
  }

  lemma {:induction false} FileClaimsPaths(l: FileList, base: Owner, removefile: bool)
    ensures ForPaths(FileClaims(l, base, removefile), Paths(l))
  {
    var f := ClaimsOf(l.files, File, None, base, removefile);
    var c := ClaimsOf(l.confFiles, ConfFile, LastSha(l.files, None), base, removefile);
    var k := ClaimsOf(l.links, Link, None, base, removefile);
    var d := ClaimsOf(l.dirs, Dir, None, base, removefile);
    ForPathsConcat(f, c, PathsOf(l.files), PathsOf(l.confFiles));
    ForPathsConcat(f + c, k, PathsOf(l.files) + PathsOf(l.confFiles), PathsOf(l.links));
    ForPathsConcat(f + c + k, d, PathsOf(l.files) + PathsOf(l.confFiles) + PathsOf(l.links), PathsOf(l.dirs));
  }

  lemma {:induction false} MemberOfOk(e: Entry, index: nat)
    ensures MemberOk(MemberOf(e, index), index)
  {
    var m := MemberOf(e, index);
    if Unpacks(e.ttype) {
      var base := Owner(e.pkgname, index, File, None, "", false, e.ttype == Update, false);
      FileClaimsPaths(e.newFiles, base, false);
      assert ForPaths(m.creates, m.extracts);
    }
    forall i | 0 <= i < |m.extracts| ensures Claims(m.creates, m.extracts[i]) {
      assert m.creates[i].path == m.extracts[i];
    }
  }

  // ---------------------------------------------------------------------
  // collect_file and its callers
  // ---------------------------------------------------------------------

  function Fresh(c: Claim): Item {
    if c.removefile then Item(c.path, Some(c.owner), None) else Item(c.path, None, Some(c.owner))
  }

  /** What one claim does to the item of its path, and the error it returns. */
  function Merge(it: Item, c: Claim, ignoreConflicts: bool): (Item, int) {
    if c.removefile then
      if it.gone.None? then (it.(gone := Some(c.owner)), 0)
      else
        var o := it.gone.value;
        if c.owner.typ == Dir && o.typ == Dir then
          if c.owner.index < o.index || o.preserve then (it, 0)
          else (it.(gone := Some(o.(pkgname := c.owner.pkgname, index := c.owner.index, preserve := c.owner.preserve,
            update := c.owner.update, removepkg := c.owner.removepkg))), 0)
        else (it, if o.preserve != c.owner.preserve then EPERM else 0)
    else
      if it.made.None? then (it.(made := Some(c.owner)), 0)
      else if c.owner.typ == Dir && it.made.value.typ == Dir then (it, 0)
      else (it, if ignoreConflicts then 0 else EEXIST)
  }

  function Collect(st: Collected, c: Claim, ignoreConflicts: bool): (Collected, int) {
    if c.path !in st.table then
      (Collected(st.table[c.path := Fresh(c)], st.order + [c.path]), 0)
    else
      var m := Merge(st.table[c.path], c, ignoreConflicts);
      (st.(table := st.table[c.path := m.0]), m.1)
  }

  /** collect_files: a conflict is remembered and collection goes on; any other
      error stops it. */
  function CollectList(st: Collected, claims: seq<Claim>, error: bool, ignoreConflicts: bool): (Collected, int)
    decreases |claims|
  {
    if claims == [] then (st, if error then EEXIST else 0)
    else
      var s := Collect(st, claims[0], ignoreConflicts);
      if s.1 == EEXIST then CollectList(s.0, claims[1..], true, ignoreConflicts)
      else if s.1 != 0 then (s.0, if error then EEXIST else s.1)
      else CollectList(s.0, claims[1..], error, ignoreConflicts)
  }

  /** The files of the first n members; stops at the first error. */
  function CollectMembers(members: seq<Member>, n: nat, ignoreConflicts: bool): (Collected, int)
    requires n <= |members|
  {
    if n == 0 then (Collected(map[], []), 0)
    else
      var before := CollectMembers(members, n - 1, ignoreConflicts);
      if before.1 != 0 then before
      else
        var created := CollectList(before.0, members[n - 1].creates, false, ignoreConflicts);
        if created.1 != 0 then created
        else CollectList(created.0, members[n - 1].removes, false, ignoreConflicts)
  }

  function ClaimsUpTo(members: seq<Member>, n: nat): seq<Claim>
    requires n <= |members|
  {
    if n == 0 then [] else ClaimsUpTo(members, n - 1) + members[n - 1].creates + members[n - 1].removes
  }

  // ---------------------------------------------------------------------
  // What the table says about the claims
  // ---------------------------------------------------------------------

  ghost predicate SameOwner(c: Claim, path: string, o: Owner, removefile: bool) {
    c.path == path && c.removefile == removefile && c.owner.pkgname == o.pkgname && c.owner.index == o.index
  }

  ghost predicate ByClaim(cs: seq<Claim>, path: string, o: Owner, removefile: bool) {
    exists i :: 0 <= i < |cs| && SameOwner(cs[i], path, o, removefile)
  }

  ghost predicate Keyed(st: Collected) {
    && Distinct(st.order)
    && (forall p :: p in st.order <==> p in st.table)
    && (forall p :: p in st.table ==> st.table[p].file == p && (st.table[p].gone.Some? || st.table[p].made.Some?))
  }

  ghost predicate Traced(st: Collected, cs: seq<Claim>) {
    && (forall p :: p in st.table && st.table[p].made.Some? ==> ByClaim(cs, p, st.table[p].made.value, false))
    && (forall p :: p in st.table && st.table[p].gone.Some? ==> ByClaim(cs, p, st.table[p].gone.value, true))
  }

  /** A directory that is not preserved goes with the last package removing it. */
  predicate NotAfter(c: Owner, gone: Owner) {
    c.typ == Dir && gone.typ == Dir && !gone.preserve ==> c.index <= gone.index
  }

  ghost predicate Recorded(st: Collected, c: Claim) {
    && c.path in st.table
    && (c.removefile ==> st.table[c.path].gone.Some? && NotAfter(c.owner, st.table[c.path].gone.value))
    && (!c.removefile ==> st.table[c.path].made.Some? && st.table[c.path].made.value.index <= c.owner.index)
  }

  /** Every path is in the table once; its creator is the first package that
      creates it; its remover is a package that removes it, for a directory the
      last one. */
  ghost predicate Faithful(st: Collected, cs: seq<Claim>) {
    Keyed(st) && Traced(st, cs) && forall i :: 0 <= i < |cs| ==> Recorded(st, cs[i])
  }

  lemma ByClaimMore(cs: seq<Claim>, c: Claim, path: string, o: Owner, removefile: bool)
    requires ByClaim(cs, path, o, removefile) || SameOwner(c, path, o, removefile)
    ensures ByClaim(cs + [c], path, o, removefile)
  {
    var ds := cs + [c];
    if ByClaim(cs, path, o, removefile) {
      var i :| 0 <= i < |cs| && SameOwner(cs[i], path, o, removefile);
      assert SameOwner(ds[i], path, o, removefile);
    } else {
      assert SameOwner(ds[|cs|], path, o, removefile);
    }
  }

  lemma CollectTraced(st: Collected, cs: seq<Claim>, c: Claim, ignoreConflicts: bool)
    requires Traced(st, cs)
    ensures Traced(Collect(st, c, ignoreConflicts).0, cs + [c])
  {
    var r := Collect(st, c, ignoreConflicts).0;
    forall p | p in r.table && r.table[p].made.Some? ensures ByClaim(cs + [c], p, r.table[p].made.value, false) {
      ByClaimMore(cs, c, p, r.table[p].made.value, false);
    }
    forall p | p in r.table && r.table[p].gone.Some? ensures ByClaim(cs + [c], p, r.table[p].gone.value, true) {
      ByClaimMore(cs, c, p, r.table[p].gone.value, true);
    }
  }

  lemma CollectRecorded(st: Collected, cs: seq<Claim>, c: Claim, ignoreConflicts: bool)
    requires Traced(st, cs) && forall i :: 0 <= i < |cs| ==> cs[i].owner.index <= c.owner.index
    ensures Recorded(Collect(st, c, ignoreConflicts).0, c)
  {
    if c.path in st.table && st.table[c.path].made.Some? {
      assert ByClaim(cs, c.path, st.table[c.path].made.value, false);
    }
    if c.path in st.table && st.table[c.path].gone.Some? {
      assert ByClaim(cs, c.path, st.table[c.path].gone.value, true);
    }
  }

  lemma CollectKeyed(st: Collected, c: Claim, ignoreConflicts: bool)
    requires Keyed(st)
    ensures Keyed(Collect(st, c, ignoreConflicts).0)
  {
    var r := Collect(st, c, ignoreConflicts).0;
    forall p ensures p in r.order <==> p in r.table {
      assert p in r.order <==> p in st.order || (c.path !in st.table && p == c.path);
    }
  }

  lemma StaysRecorded(st: Collected, c: Claim, d: Claim, ignoreConflicts: bool)
    requires Recorded(st, d) && d.owner.index <= c.owner.index
    ensures Recorded(Collect(st, c, ignoreConflicts).0, d)
  {
  }

  lemma CollectKeeps(st: Collected, cs: seq<Claim>, c: Claim, ignoreConflicts: bool)
    requires Faithful(st, cs) && forall i :: 0 <= i < |cs| ==> cs[i].owner.index <= c.owner.index
    ensures Faithful(Collect(st, c, ignoreConflicts).0, cs + [c])
  {
    CollectKeyed(st, c, ignoreConflicts);
    CollectTraced(st, cs, c, ignoreConflicts);
    var r := Collect(st, c, ignoreConflicts).0;
    forall i | 0 <= i < |cs + [c]| ensures Recorded(r, (cs + [c])[i]) {
      if i < |cs| {
        StaysRecorded(st, c, cs[i], ignoreConflicts);
      } else {
        CollectRecorded(st, cs, c, ignoreConflicts);
      }
    }
  }

  lemma {:induction false} CollectListKeeps(st: Collected, cs: seq<Claim>, claims: seq<Claim>, error: bool,
    index: nat, ignoreConflicts: bool)
    requires Faithful(st, cs) && CollectList(st, claims, error, ignoreConflicts).1 == 0
    requires forall i :: 0 <= i < |cs| ==> cs[i].owner.index <= index
    requires forall i :: 0 <= i < |claims| ==> claims[i].owner.index == index
    ensures Faithful(CollectList(st, claims, error, ignoreConflicts).0, cs + claims)
    decreases |claims|
  {
    if claims == [] {
      assert cs + claims == cs;
    } else {
      var s := Collect(st, claims[0], ignoreConflicts);
      CollectKeeps(st, cs, claims[0], ignoreConflicts);
      assert cs + claims == cs + [claims[0]] + claims[1..];
      CollectListKeeps(s.0, cs + [claims[0]], claims[1..], error || s.1 == EEXIST, index, ignoreConflicts);
    }
  }

  /** The claim was made by one of the first n members. */
  predicate Within(members: seq<Member>, n: nat, c: Claim) {
    1 <= c.owner.index <= n <= |members| && members[c.owner.index - 1].pkgname == c.owner.pkgname
  }

  predicate AllWithin(members: seq<Member>, n: nat, cs: seq<Claim>) {
    forall i :: 0 <= i < |cs| ==> Within(members, n, cs[i])
  }

  lemma WithinConcat(members: seq<Member>, n: nat, cs: seq<Claim>, more: seq<Claim>, removefile: bool)
    requires 1 <= n <= |members|
    requires AllWithin(members, n - 1, cs) || AllWithin(members, n, cs)
    requires AllOf(more, members[n - 1].pkgname, n, removefile)
    ensures AllWithin(members, n, cs + more)
  {
    forall i | 0 <= i < |cs + more| ensures Within(members, n, (cs + more)[i]) {
      if i >= |cs| {
        assert OfPackage(more[i - |cs|], members[n - 1].pkgname, n, removefile);
      }
    }
  }

  lemma {:induction false} ClaimsWithin(members: seq<Member>, n: nat)
    requires MembersOk(members) && n <= |members|
    ensures AllWithin(members, n, ClaimsUpTo(members, n))
  {
    if n > 0 {
      ClaimsWithin(members, n - 1);
      var cs, m := ClaimsUpTo(members, n - 1), members[n - 1];
      WithinConcat(members, n, cs, m.creates, false);
      WithinConcat(members, n, cs + m.creates, m.removes, true);
    }
  }

  /** When collection succeeds, the table is faithful to all claims. */
  lemma {:induction false} CollectionFaithful(members: seq<Member>, n: nat, ignoreConflicts: bool)
    requires MembersOk(members) && n <= |members| && CollectMembers(members, n, ignoreConflicts).1 == 0
    ensures Faithful(CollectMembers(members, n, ignoreConflicts).0, ClaimsUpTo(members, n))
  {
    if n > 0 {
      CollectionFaithful(members, n - 1, ignoreConflicts);
      ClaimsWithin(members, n - 1);
      var cs, m := ClaimsUpTo(members, n - 1), members[n - 1];
      forall i | 0 <= i < |m.creates| ensures m.creates[i].owner.index == n {
        assert OfPackage(m.creates[i], m.pkgname, n, false);
      }
      forall i | 0 <= i < |m.removes| ensures m.removes[i].owner.index == n {
        assert OfPackage(m.removes[i], m.pkgname, n, true);
      }
      var before := CollectMembers(members, n - 1, ignoreConflicts).0;
      CollectListKeeps(before, cs, m.creates, false, n, ignoreConflicts);
      CollectListKeeps(CollectList(before, m.creates, false, ignoreConflicts).0, cs + m.creates, m.removes, false, n,
        ignoreConflicts);
    }
  }
}
