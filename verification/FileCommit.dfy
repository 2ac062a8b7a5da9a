/** The commit loop as an ordered run over the file system: each member first
    deletes the obsolete paths planned for it and then extracts its own files. */
module FileCommit {
  import opened Wrappers
  import opened TransactionFiles
  import opened FilePlan

  datatype Op = Delete(path: string) | Extract(path: string, pkgname: string)

  function Deletes(paths: seq<string>): seq<Op> {
    seq(|paths|, i requires 0 <= i < |paths| => Delete(paths[i]))
  }

  function Extracts(paths: seq<string>, pkgname: string): seq<Op> {
    seq(|paths|, i requires 0 <= i < |paths| => Extract(paths[i], pkgname))
  }

  /** What committing one member does to the file system. */
  function MemberDeletes(m: Member, obsoletes: Lists): seq<Op> {
    if m.deletes then Deletes(ListOf(obsoletes, m.pkgname)) else []
  }

  function CommitOps(members: seq<Member>, n: nat, obsoletes: Lists): seq<Op>
    requires n <= |members|
  {
    if n == 0 then []
    else
      var m := members[n - 1];
      CommitOps(members, n - 1, obsoletes) + MemberDeletes(m, obsoletes) + Extracts(m.extracts, m.pkgname)
  }

  predicate DistinctNames(members: seq<Member>) {
    forall i, j :: 0 <= i < j < |members| ==> members[i].pkgname != members[j].pkgname
  }

  /** The item array after sorting: the table's items, longest path first. */
  ghost predicate Arranged(items: seq<Item>, table: map<string, Item>) {
    && OnePerPath(items) && LongestFirst(items) && Owned(items)
    && (forall i :: 0 <= i < |items| ==> items[i].file in table && table[items[i].file] == items[i])
    && (forall p :: p in table ==> exists i :: 0 <= i < |items| && items[i].file == p)
  }

  // ---------------------------------------------------------------------
  // Who extracts and who deletes a path
  // ---------------------------------------------------------------------

  lemma {:induction false} ClaimKept(members: seq<Member>, k: nat, n: nat, c: Claim)
    requires k < n <= |members| && c in members[k].creates
    ensures c in ClaimsUpTo(members, n)
    decreases n
  {
    if k < n - 1 {
      ClaimKept(members, k, n - 1, c);
    }
  }

  /** The members were collected into the table, one entry per package name. */
  ghost predicate Gathered(members: seq<Member>, ignoreConflicts: bool, table: map<string, Item>) {
    && DistinctNames(members) && MembersOk(members)
    && CollectMembers(members, |members|, ignoreConflicts).1 == 0
    && CollectMembers(members, |members|, ignoreConflicts).0.table == table
  }

  /** A path extracted by member k is recorded as made by member k or an earlier
      one. */
  lemma ExtractorIndex(members: seq<Member>, ignoreConflicts: bool, table: map<string, Item>, k: nat, i: nat)
    requires Gathered(members, ignoreConflicts, table) && 1 <= k <= |members| && i < |members[k - 1].extracts|
    ensures var p := members[k - 1].extracts[i]; p in table && table[p].made.Some? && table[p].made.value.index <= k
  {
    var m, n := members[k - 1], |members|;
    var p := m.extracts[i];
    assert Claims(m.creates, p);
    var a :| 0 <= a < |m.creates| && m.creates[a].path == p;
    assert OfPackage(m.creates[a], m.pkgname, k, false);
    ClaimKept(members, k - 1, n, m.creates[a]);
    CollectionFaithful(members, n, ignoreConflicts);
    var j :| 0 <= j < |ClaimsUpTo(members, n)| && ClaimsUpTo(members, n)[j] == m.creates[a];
    assert Recorded(CollectMembers(members, n, ignoreConflicts).0, ClaimsUpTo(members, n)[j]);
  }

  lemma OwnerNamed(members: seq<Member>, n: nat, path: string, o: Owner, removefile: bool)
    requires MembersOk(members) && n <= |members| && ByClaim(ClaimsUpTo(members, n), path, o, removefile)
    ensures 1 <= o.index <= n && members[o.index - 1].pkgname == o.pkgname
  {
    ClaimsWithin(members, n);
    var i :| 0 <= i < |ClaimsUpTo(members, n)| && SameOwner(ClaimsUpTo(members, n)[i], path, o, removefile);
    assert Within(members, n, ClaimsUpTo(members, n)[i]);
  }

  /** Member m deletes the path of an item only if nobody before m makes it. */
  lemma DeleterIndex(members: seq<Member>, ignoreConflicts: bool, table: map<string, Item>, it: Item, m: nat)
    requires Gathered(members, ignoreConflicts, table) && it.file in table && table[it.file] == it
    requires it.gone.Some? && 1 <= m <= |members| && Remover(it) == members[m - 1].pkgname
    ensures it.made.Some? ==> m <= it.made.value.index
  {
    var n := |members|;
    CollectionFaithful(members, n, ignoreConflicts);
    var cs := ClaimsUpTo(members, n);
    if it.made.Some? {
      assert ByClaim(cs, it.file, it.made.value, false) && ByClaim(cs, it.file, it.gone.value, true);
      OwnerNamed(members, n, it.file, it.made.value, false);
      OwnerNamed(members, n, it.file, it.gone.value, true);
    }
  }

  /** Whoever deletes a path comes no later than whoever extracts it. */
  lemma ScheduledBefore(members: seq<Member>, ignoreConflicts: bool, table: map<string, Item>,
                        items: seq<Item>, obsoletes: Lists, m: nat, k: nat, i: nat)
    requires Gathered(members, ignoreConflicts, table) && Arranged(items, table) && Sound(items, |items|, obsoletes)
    requires 1 <= m <= |members| && 1 <= k <= |members| && i < |members[k - 1].extracts|
    requires members[k - 1].extracts[i] in ListOf(obsoletes, members[m - 1].pkgname)
    ensures m <= k
  {
    var pkg, p := members[m - 1].pkgname, members[k - 1].extracts[i];
    var a :| 0 <= a < |obsoletes[pkg]| && obsoletes[pkg][a] == p;
    assert Placed(items, |items|, pkg, obsoletes[pkg][a]);
    var j: nat :| Places(items, |items|, pkg, p, j);
    ExtractorIndex(members, ignoreConflicts, table, k, i);
    DeleterIndex(members, ignoreConflicts, table, items[j], m);
  }

  // ---------------------------------------------------------------------
  // Nothing extracted is deleted afterwards
  // ---------------------------------------------------------------------

  predicate NoLateDelete(ops: seq<Op>) {
    forall i, j :: 0 <= i < j < |ops| && ops[i].Extract? && ops[j].Delete? ==> ops[i].path != ops[j].path
  }

  lemma {:induction false} ExtractOrigin(members: seq<Member>, n: nat, obsoletes: Lists, i: nat)
    returns (k: nat, j: nat)
    requires n <= |members| && i < |CommitOps(members, n, obsoletes)| && CommitOps(members, n, obsoletes)[i].Extract?
    ensures 1 <= k <= n && j < |members[k - 1].extracts|
    ensures CommitOps(members, n, obsoletes)[i] == Extract(members[k - 1].extracts[j], members[k - 1].pkgname)
  {
    var before := CommitOps(members, n - 1, obsoletes);
    if i < |before| {
      k, j := ExtractOrigin(members, n - 1, obsoletes, i);
    } else {
      k := n;
      j := i - |before| - |MemberDeletes(members[n - 1], obsoletes)|;
    }
  }

  lemma NoLateDeleteAppend(ops: seq<Op>, dels: seq<Op>, exts: seq<Op>)
    requires NoLateDelete(ops)
    requires forall j :: 0 <= j < |dels| ==> dels[j].Delete?
    requires forall j :: 0 <= j < |exts| ==> exts[j].Extract?
    requires forall i, j :: 0 <= i < |ops| && 0 <= j < |dels| && ops[i].Extract? ==> ops[i].path != dels[j].path
    ensures NoLateDelete(ops + dels + exts)
  {
    var all := ops + dels + exts;
    forall i, j | 0 <= i < j < |all| && all[i].Extract? && all[j].Delete? ensures all[i].path != all[j].path {
      assert j < |ops| + |dels|;
      if j >= |ops| {
        assert all[j] == dels[j - |ops|];
        assert i < |ops|;
        assert all[i] == ops[i];
      }
    }
  }

  lemma CommitOpsNext(members: seq<Member>, n: nat, obsoletes: Lists)
    requires n < |members|
    ensures CommitOps(members, n + 1, obsoletes) == CommitOps(members, n, obsoletes)
      + MemberDeletes(members[n], obsoletes) + Extracts(members[n].extracts, members[n].pkgname)
  {
  }

  /** No member deletes what an earlier member extracts. */
  ghost predicate DeletesNothingEarlier(members: seq<Member>, obsoletes: Lists) {
    forall n, k, e :: 0 <= k < n < |members| && 0 <= e < |members[k].extracts| ==>
      members[k].extracts[e] !in ListOf(obsoletes, members[n].pkgname)
  }

  lemma GatheredDeletesNothing(members: seq<Member>, ignoreConflicts: bool, table: map<string, Item>,
                               items: seq<Item>, obsoletes: Lists)
    requires Gathered(members, ignoreConflicts, table) && Arranged(items, table) && Sound(items, |items|, obsoletes)
    ensures DeletesNothingEarlier(members, obsoletes)
  {
    forall n, k, e | 0 <= k < n < |members| && 0 <= e < |members[k].extracts|
      ensures members[k].extracts[e] !in ListOf(obsoletes, members[n].pkgname)
    {
      ScheduledNotAfter(members, ignoreConflicts, table, items, obsoletes, n + 1, k + 1, e);
    }
  }

  lemma ScheduledNotAfter(members: seq<Member>, ignoreConflicts: bool, table: map<string, Item>,
                          items: seq<Item>, obsoletes: Lists, m: nat, k: nat, i: nat)
    requires Gathered(members, ignoreConflicts, table) && Arranged(items, table) && Sound(items, |items|, obsoletes)
    requires 1 <= m <= |members| && 1 <= k <= |members| && i < |members[k - 1].extracts|
    ensures members[k - 1].extracts[i] in ListOf(obsoletes, members[m - 1].pkgname) ==> m <= k
  {
    if members[k - 1].extracts[i] in ListOf(obsoletes, members[m - 1].pkgname) {
      ScheduledBefore(members, ignoreConflicts, table, items, obsoletes, m, k, i);
    }
  }

  lemma NotDoneEarlier(members: seq<Member>, obsoletes: Lists, m: nat, i: nat, j: nat)
    requires DeletesNothingEarlier(members, obsoletes) && m < |members| && j < |MemberDeletes(members[m], obsoletes)|
    requires i < |CommitOps(members, m, obsoletes)| && CommitOps(members, m, obsoletes)[i].Extract?
    ensures CommitOps(members, m, obsoletes)[i].path != MemberDeletes(members[m], obsoletes)[j].path
  {
    var k, e := ExtractOrigin(members, m, obsoletes, i);
    assert MemberDeletes(members[m], obsoletes)[j].path in ListOf(obsoletes, members[m].pkgname);
  }

  lemma OpsInOrder(members: seq<Member>, obsoletes: Lists, n: nat)
    requires DeletesNothingEarlier(members, obsoletes) && n <= |members|
    ensures NoLateDelete(CommitOps(members, n, obsoletes))
  {
    for m := 0 to n
      invariant NoLateDelete(CommitOps(members, m, obsoletes))
    {
      var ops, dels := CommitOps(members, m, obsoletes), MemberDeletes(members[m], obsoletes);
      forall i, j | 0 <= i < |ops| && 0 <= j < |dels| && ops[i].Extract? ensures ops[i].path != dels[j].path {
        NotDoneEarlier(members, obsoletes, m, i, j);
      }
      NoLateDeleteAppend(ops, dels, Extracts(members[m].extracts, members[m].pkgname));
      CommitOpsNext(members, m, obsoletes);
    }
  }

  lemma CommitOrder(members: seq<Member>, ignoreConflicts: bool, table: map<string, Item>,
                    items: seq<Item>, obsoletes: Lists, n: nat)
    requires Gathered(members, ignoreConflicts, table) && Arranged(items, table) && Sound(items, |items|, obsoletes)
    requires n <= |members|
    ensures NoLateDelete(CommitOps(members, n, obsoletes))
  {
    GatheredDeletesNothing(members, ignoreConflicts, table, items, obsoletes);
    OpsInOrder(members, obsoletes, n);
  }

  lemma GatheredEntries(entries: seq<Entry>, ignoreConflicts: bool, table: map<string, Item>)
    requires DistinctNames(Members(entries))
    requires CollectMembers(Members(entries), |entries|, ignoreConflicts).1 == 0
    requires CollectMembers(Members(entries), |entries|, ignoreConflicts).0.table == table
    ensures Gathered(Members(entries), ignoreConflicts, table)
  {
    EntriesOk(entries);
  }

  lemma EntriesOk(entries: seq<Entry>)
    ensures |Members(entries)| == |entries| && MembersOk(Members(entries))
  {
    var ms := Members(entries);
    forall i | 0 <= i < |ms| ensures MemberOk(ms[i], i + 1) {
      assert ms[i] == MemberOf(entries[i], i + 1);
      MemberOfOk(entries[i], i + 1);
    }
  }

  /** In the whole run of the commit loop, no path extracted by a member is
      deleted later on behalf of any member. */
  lemma CommitNeverDeletesExtracted(entries: seq<Entry>, ignoreConflicts: bool, table: map<string, Item>,
    items: seq<Item>, env: Env)
    requires DistinctNames(Members(entries))
    requires CollectMembers(Members(entries), |entries|, ignoreConflicts).1 == 0
    requires CollectMembers(Members(entries), |entries|, ignoreConflicts).0.table == table
    requires Arranged(items, table)
    ensures NoLateDelete(CommitOps(Members(entries), |entries|, PlanUpTo(items, |items|, env).obsoletes))
  {
    GatheredEntries(entries, ignoreConflicts, table);
    PlanSound(items, |items|, env);
    CommitOrder(Members(entries), ignoreConflicts, table, items, PlanUpTo(items, |items|, env).obsoletes, |entries|);
  }

  // ---------------------------------------------------------------------
  // The file system at the end
  // ---------------------------------------------------------------------

  /** The file system maps a path to the package whose content it holds. */
  type FileSystem = map<string, string>

  /** Deletions can fail. Extractions can be skipped: directories, paths that match a
      noextract pattern, preserved paths that exist, configuration files kept as they
      are and files that are there already. */
  function Apply(fs: FileSystem, op: Op, ok: bool): FileSystem {
    if !ok then fs
    else
      match op
      case Delete(p) => fs - {p}
      case Extract(p, pkg) => fs[p := pkg]
  }

  function Run(fs: FileSystem, ops: seq<Op>, ok: nat -> bool): FileSystem
    decreases |ops|
  {
    if ops == [] then fs else Apply(Run(fs, ops[..|ops| - 1], ok), ops[|ops| - 1], ok(|ops| - 1))
  }

  /** The path of extraction i is not written again later. */
  predicate LastWrite(ops: seq<Op>, ok: nat -> bool, i: nat) {
    && i < |ops| && ops[i].Extract?
    && forall j :: i < j < |ops| && ops[j].Extract? && ok(j) ==> ops[j].path != ops[i].path
  }

  /** p is the same in both: absent, or with the same content. */
  predicate SameAt(fs: FileSystem, gs: FileSystem, p: string) {
    (p in fs <==> p in gs) && (p in fs ==> fs[p] == gs[p])
  }

  lemma {:induction false} ExtractedStays(fs: FileSystem, ops: seq<Op>, ok: nat -> bool, i: nat)
    requires NoLateDelete(ops) && LastWrite(ops, ok, i)
    ensures SameAt(Run(fs, ops, ok), Run(fs, ops[..i + 1], ok), ops[i].path)
    decreases |ops|
  {
    var n := |ops| - 1;
    var front := ops[..n];
    if i < n {
      assert front[i] == ops[i] && front[..i + 1] == ops[..i + 1];
      ExtractedStays(fs, front, ok, i);
    } else {
      assert ops[..i + 1] == ops;
    }
  }

  /** After the commit loop, wherever it stopped, a path that a member wrote holds that
      member's content unless a later one wrote it again; a path that a member lists and
      left as it was still is as it was then. */
  lemma CommitInstalls(entries: seq<Entry>, ignoreConflicts: bool, table: map<string, Item>, items: seq<Item>,
                       env: Env, fs: FileSystem, ok: nat -> bool, k: nat, i: nat)
    requires DistinctNames(Members(entries))
    requires CollectMembers(Members(entries), |entries|, ignoreConflicts).1 == 0
    requires CollectMembers(Members(entries), |entries|, ignoreConflicts).0.table == table
    requires Arranged(items, table)
    requires var ops := CommitOps(Members(entries), |entries|, PlanUpTo(items, |items|, env).obsoletes);
      k <= |ops| && LastWrite(ops[..k], ok, i)
    ensures var ops := CommitOps(Members(entries), |entries|, PlanUpTo(items, |items|, env).obsoletes);
      var end := Run(fs, ops[..k], ok);
      && (ok(i) ==> ops[i].path in end && end[ops[i].path] == ops[i].pkgname)
      && (!ok(i) ==> SameAt(end, Run(fs, ops[..i], ok), ops[i].path))
  {
    CommitNeverDeletesExtracted(entries, ignoreConflicts, table, items, env);
    WritesStay(fs, CommitOps(Members(entries), |entries|, PlanUpTo(items, |items|, env).obsoletes), ok, k, i);
  }

  lemma WritesStay(fs: FileSystem, ops: seq<Op>, ok: nat -> bool, k: nat, i: nat)
    requires NoLateDelete(ops) && k <= |ops| && LastWrite(ops[..k], ok, i)
    ensures var end := Run(fs, ops[..k], ok);
      && (ok(i) ==> ops[i].path in end && end[ops[i].path] == ops[i].pkgname)
      && (!ok(i) ==> SameAt(end, Run(fs, ops[..i], ok), ops[i].path))
  {
    var done := ops[..k];
    assert done[i] == ops[i] && done[..i + 1] == ops[..i + 1];
    ExtractedStays(fs, done, ok, i);
    var upto := ops[..i + 1];
    assert upto[..i] == ops[..i] && upto[i] == ops[i];
  }
}
