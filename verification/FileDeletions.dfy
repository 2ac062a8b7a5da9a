/** What the commit loop certainly does: the operations of each entry one by one, the
    deletions among them, and what they leave on the file system. */
module FileDeletions {
  import opened Wrappers
  import opened TransactionFiles
  import opened FilePlan
  import opened FileCommit

  // ---------------------------------------------------------------------
  // The operations of one member
  // ---------------------------------------------------------------------

  /** Where the operations of member k begin. */
  function Start(members: seq<Member>, k: nat, obsoletes: Lists): nat
    requires k <= |members|
  {
    |CommitOps(members, k, obsoletes)|
  }

  lemma {:induction false} OpsKept(members: seq<Member>, k: nat, n: nat, obsoletes: Lists)
    requires k <= n <= |members|
    ensures CommitOps(members, k, obsoletes) <= CommitOps(members, n, obsoletes)
    decreases n
  {
    if k < n {
      OpsKept(members, k, n - 1, obsoletes);
    }
  }

  /** From position `at` on come the deletions and then the extractions, and nothing else
      before position `end`. */
  ghost predicate Section(ops: seq<Op>, at: nat, dels: seq<string>, exts: seq<string>, pkgname: string, end: nat) {
    && end == at + |dels| + |exts| <= |ops|
    && (forall j :: 0 <= j < |dels| ==> ops[at + j] == Delete(dels[j]))
    && (forall j :: 0 <= j < |exts| ==> ops[at + |dels| + j] == Extract(exts[j], pkgname))
  }

  /** The paths a member deletes. */
  function DeletesOf(m: Member, obsoletes: Lists): seq<string> {
    if m.deletes then ListOf(obsoletes, m.pkgname) else []
  }

  lemma SectionAfter(before: seq<Op>, dels: seq<string>, exts: seq<string>, pkgname: string, ops: seq<Op>)
    requires before + Deletes(dels) + Extracts(exts, pkgname) <= ops
    ensures Section(ops, |before|, dels, exts, pkgname, |before + Deletes(dels) + Extracts(exts, pkgname)|)
  {
    var all := before + Deletes(dels) + Extracts(exts, pkgname);
    assert forall j :: 0 <= j < |all| ==> ops[j] == all[j];
  }

  lemma MemberSection(members: seq<Member>, k: nat, n: nat, obsoletes: Lists)
    requires k < n <= |members|
    ensures var m := members[k];
      Section(CommitOps(members, n, obsoletes), Start(members, k, obsoletes), DeletesOf(m, obsoletes), m.extracts,
        m.pkgname, Start(members, k + 1, obsoletes))
  {
    CommitOpsNext(members, k, obsoletes);
    OpsKept(members, k + 1, n, obsoletes);
    var m := members[k];
    assert MemberDeletes(m, obsoletes) == Deletes(DeletesOf(m, obsoletes));
    SectionAfter(CommitOps(members, k, obsoletes), DeletesOf(m, obsoletes), m.extracts, m.pkgname,
      CommitOps(members, n, obsoletes));
  }

  /** The commit of an entry deletes its obsolete paths: it removes an installed package
      that was not half removed, for good, or it unpacks without having to preserve. */
  predicate MustDelete(e: Entry) {
    || (e.ttype == Remove && e.installed != None && !e.halfRemoved && !e.removeAndUpdate)
    || ((e.ttype == Install || e.ttype == Reinstall || e.ttype == Update) && !e.preserve)
  }

  /** The operations that entry k contributes, wherever it stands: if it must delete, its
      whole obsolete list, in order; if it unpacks, then all its paths; nothing else. */
  lemma {:induction false} EntrySection(entries: seq<Entry>, k: nat, obsoletes: Lists)
    requires k < |entries|
    ensures var ms, e := Members(entries), entries[k];
      Section(CommitOps(ms, |ms|, obsoletes), Start(ms, k, obsoletes),
        if MustDelete(e) then ListOf(obsoletes, e.pkgname) else [],
        if e.ttype == Install || e.ttype == Reinstall || e.ttype == Update then Paths(e.newFiles) else [],
        e.pkgname, Start(ms, k + 1, obsoletes))
  {
    var ms := Members(entries);
    assert ms[k] == MemberOf(entries[k], k + 1);
    MemberSection(ms, k, |ms|, obsoletes);
  }

  /** Every deletion belongs to a member that deletes, and is one of its list. */
  lemma {:induction false} DeleteOrigin(members: seq<Member>, n: nat, obsoletes: Lists, i: nat) returns (k: nat)
    requires n <= |members| && i < |CommitOps(members, n, obsoletes)| && CommitOps(members, n, obsoletes)[i].Delete?
    ensures k < n && members[k].deletes
    ensures CommitOps(members, n, obsoletes)[i].path in ListOf(obsoletes, members[k].pkgname)
    ensures Start(members, k, obsoletes) <= i < Start(members, k + 1, obsoletes)
  {
    var before := CommitOps(members, n - 1, obsoletes);
    if i < |before| {
      k := DeleteOrigin(members, n - 1, obsoletes, i);
    } else {
      k := n - 1;
      CommitOpsNext(members, k, obsoletes);
    }
  }

  // ---------------------------------------------------------------------
  // The file system
  // ---------------------------------------------------------------------

  /** No operation from position a on changed the path. */
  predicate Untouched(ops: seq<Op>, a: nat, ok: nat -> bool, p: string) {
    forall j :: a <= j < |ops| && ok(j) ==> ops[j].path != p
  }

  lemma {:induction false} UntouchedSame(fs: FileSystem, ops: seq<Op>, a: nat, ok: nat -> bool, p: string)
    requires a <= |ops| && Untouched(ops, a, ok, p)
    ensures SameAt(Run(fs, ops, ok), Run(fs, ops[..a], ok), p)
    decreases |ops|
  {
    var n := |ops| - 1;
    if a <= n {
      var front := ops[..n];
      assert front[..a] == ops[..a];
      assert forall j :: a <= j < n ==> front[j] == ops[j];
      UntouchedSame(fs, front, a, ok, p);
    } else {
      assert ops[..a] == ops;
    }
  }

  /** The last operation that took place on a path decides: absent after a deletion, the
      extractor's content after an extraction; without any it is as it was. */
  lemma LastDecides(fs: FileSystem, ops: seq<Op>, ok: nat -> bool, p: string, i: nat)
    ensures Untouched(ops, 0, ok, p) ==> SameAt(Run(fs, ops, ok), fs, p)
    ensures i < |ops| && ops[i] == Delete(p) && ok(i) && Untouched(ops, i + 1, ok, p) ==> p !in Run(fs, ops, ok)
    ensures i < |ops| && ops[i].Extract? && ops[i].path == p && ok(i) && Untouched(ops, i + 1, ok, p) ==>
      p in Run(fs, ops, ok) && Run(fs, ops, ok)[p] == ops[i].pkgname
  {
    if Untouched(ops, 0, ok, p) {
      UntouchedSame(fs, ops, 0, ok, p);
    }
    if i < |ops| && ops[i].path == p && ok(i) && Untouched(ops, i + 1, ok, p) {
      UntouchedSame(fs, ops, i + 1, ok, p);
      var upto := ops[..i + 1];
      assert upto[..i] == ops[..i] && upto[i] == ops[i];
    }
  }

  /** No extraction from position a on wrote the path. */
  predicate Unwritten(ops: seq<Op>, a: nat, ok: nat -> bool, p: string) {
    forall j :: a <= j < |ops| && ops[j].Extract? && ok(j) ==> ops[j].path != p
  }

  lemma {:induction false} StaysDeleted(fs: FileSystem, ops: seq<Op>, ok: nat -> bool, p: string, i: nat)
    requires i < |ops| && ops[i] == Delete(p) && ok(i) && Unwritten(ops, i, ok, p)
    ensures p !in Run(fs, ops, ok)
    decreases |ops|
  {
    var n := |ops| - 1;
    if i < n {
      var front := ops[..n];
      assert forall j :: 0 <= j < n ==> front[j] == ops[j];
      StaysDeleted(fs, front, ok, p, i);
    }
  }

  /** Every path of the list of a member that deletes is deleted by it, and unless that
      deletion failed or a later extraction wrote it again it is absent at the end. */
  ghost predicate Gone(members: seq<Member>, obsoletes: Lists, ok: nat -> bool, end: FileSystem, k: nat, j: nat)
    requires k < |members|
  {
    var ops, at := CommitOps(members, |members|, obsoletes), Start(members, k, obsoletes) + j;
    members[k].deletes && j < |ListOf(obsoletes, members[k].pkgname)| ==>
      var p := ListOf(obsoletes, members[k].pkgname)[j];
      && at < |ops| && ops[at] == Delete(p)
      && (ok(at) && Unwritten(ops, at, ok, p) ==> p !in end)
  }

  /** Position j of the list of a member that deletes is operation Start + j. */
  lemma DeleteAt(members: seq<Member>, obsoletes: Lists, k: nat, j: nat)
    requires k < |members| && members[k].deletes && j < |ListOf(obsoletes, members[k].pkgname)|
    ensures var ops, at := CommitOps(members, |members|, obsoletes), Start(members, k, obsoletes) + j;
      at < |ops| && ops[at] == Delete(ListOf(obsoletes, members[k].pkgname)[j])
  {
    MemberSection(members, k, |members|, obsoletes);
  }

  lemma StaysDeletedIf(fs: FileSystem, ops: seq<Op>, ok: nat -> bool, p: string, i: nat)
    requires i < |ops| && ops[i] == Delete(p)
    ensures ok(i) && Unwritten(ops, i, ok, p) ==> p !in Run(fs, ops, ok)
  {
    if ok(i) && Unwritten(ops, i, ok, p) {
      StaysDeleted(fs, ops, ok, p, i);
    }
  }

  lemma CommitDeletes(members: seq<Member>, obsoletes: Lists, fs: FileSystem, ok: nat -> bool, k: nat, j: nat)
    requires k < |members|
    ensures Gone(members, obsoletes, ok, Run(fs, CommitOps(members, |members|, obsoletes), ok), k, j)
  {
    if members[k].deletes && j < |ListOf(obsoletes, members[k].pkgname)| {
      DeleteAt(members, obsoletes, k, j);
      StaysDeletedIf(fs, CommitOps(members, |members|, obsoletes), ok, ListOf(obsoletes, members[k].pkgname)[j],
        Start(members, k, obsoletes) + j);
    }
  }

  /** A path is absent or changed only through its own package's list or files: what no
      member that deletes lists and no member extracts is as it was. */
  lemma CommitLeavesAlone(members: seq<Member>, obsoletes: Lists, fs: FileSystem, ok: nat -> bool, p: string)
    requires forall k :: 0 <= k < |members| ==> p !in members[k].extracts
    requires forall k :: 0 <= k < |members| && members[k].deletes ==> p !in ListOf(obsoletes, members[k].pkgname)
    ensures SameAt(Run(fs, CommitOps(members, |members|, obsoletes), ok), fs, p)
  {
    var n := |members|;
    var ops := CommitOps(members, n, obsoletes);
    forall i | 0 <= i < |ops| ensures ops[i].path != p {
      if ops[i].Delete? {
        var k := DeleteOrigin(members, n, obsoletes, i);
      } else {
        var k, e := ExtractOrigin(members, n, obsoletes, i);
      }
    }
    LastDecides(fs, ops, ok, p, 0);
  }
}
