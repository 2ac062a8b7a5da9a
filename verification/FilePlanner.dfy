/** The file planner and the commit loop as the program runs them: a table and an
    array grown claim by claim, a sort, a loop that fills the obsolete lists, and
    a loop over the transaction that changes the file system. */
module FilePlanner {
  import opened Wrappers
  import opened TransactionFiles
  import opened FilePlan
  import opened FileCommit
  import opened FileConflicts
  import opened FileDeletions
  import opened FilePlanResult

  /** Sorts by path length, longest first. */
  method SortItems(items: seq<Item>) returns (sorted: seq<Item>)
    requires OnePerPath(items)
    ensures OnePerPath(sorted) && LongestFirst(sorted)
    ensures forall it :: it in sorted <==> it in items
  {
    sorted := [];
    var n := 0;
    while n < |items|
      invariant 0 <= n <= |items|
      invariant OnePerPath(sorted) && LongestFirst(sorted)
      invariant forall it :: it in sorted <==> it in items[..n]
    {
      var i := 0;
      while i < |sorted| && |sorted[i].file| >= |items[n].file|
        invariant 0 <= i <= |sorted|
        invariant forall j :: 0 <= j < i ==> |sorted[j].file| >= |items[n].file|
      {
        i := i + 1;
      }
      InsertKeeps(items, n, sorted, i);
      sorted := sorted[..i] + [items[n]] + sorted[i..];
      n := n + 1;
    }
    assert items[..n] == items;
  }

  lemma InsertKeeps(items: seq<Item>, n: nat, sorted: seq<Item>, i: nat)
    requires OnePerPath(items) && n < |items| && OnePerPath(sorted) && LongestFirst(sorted) && i <= |sorted|
    requires forall it :: it in sorted <==> it in items[..n]
    requires forall j :: 0 <= j < i ==> |sorted[j].file| >= |items[n].file|
    requires i < |sorted| ==> |sorted[i].file| < |items[n].file|
    ensures var r := sorted[..i] + [items[n]] + sorted[i..];
      OnePerPath(r) && LongestFirst(r) && forall it :: it in r <==> it in items[..n + 1]
  {
    var x := items[n];
    var r := sorted[..i] + [x] + sorted[i..];
    forall j | 0 <= j < |sorted| ensures sorted[j].file != x.file {
      assert sorted[j] in items[..n];
    }
    InsertMembers(sorted, x, i);
    assert items[..n + 1] == items[..n] + [x];
  }

  lemma InsertMembers(sorted: seq<Item>, x: Item, i: nat)
    requires i <= |sorted|
    ensures forall it :: it in sorted[..i] + [x] + sorted[i..] <==> it in sorted || it == x
  {
    assert sorted == sorted[..i] + sorted[i..];
  }

  /** Faithful to claims of members up to this index. */
  ghost predicate FaithfulUpTo(st: Collected, cs: seq<Claim>, index: nat) {
    Faithful(st, cs) && forall i :: 0 <= i < |cs| ==> cs[i].owner.index <= index
  }

  /** Two packages create one path, not both as a directory, and that is not ignored, or
      two removals of a path disagree about preserving it. */
  ghost predicate Conflicting(members: seq<Member>, ignoreConflicts: bool) {
    var cs := ClaimsUpTo(members, |members|);
    (!ignoreConflicts && !NoClash(cs)) || !NoDisagreement(cs)
  }

  class Planner {
    var table: map<string, Item>
    var order: seq<string>
    var items: seq<Item>
    var deleted: set<string>
    var obsoletes: map<string, seq<string>>

    constructor ()
      ensures Now() == Collected(map[], []) && obsoletes == map[] && deleted == {}
    {
      table, order, items, deleted, obsoletes := map[], [], [], {}, map[];
    }

    ghost function Now(): Collected
      reads this
    {
      Collected(table, order)
    }

    /** Records one claim. The table stays faithful to the claims made so far: each path
        once, its creator the first, its remover one that claims to remove it. The claim
        is refused, with EEXIST or EPERM, exactly when the earlier claims forbid it. */
    method CollectFile(c: Claim, ignoreConflicts: bool) returns (rv: int)
      modifies this`table, this`order
      ensures (Now(), rv) == Collect(old(Now()), c, ignoreConflicts)
      ensures forall cs :: FaithfulUpTo(old(Now()), cs, c.owner.index) ==> Faithful(Now(), cs + [c])
      ensures forall cs :: Exact(old(Now()), cs) && UpTo(cs, c.owner.index) ==>
        && Exact(Now(), cs + [c])
        && (rv == EEXIST <==> !ignoreConflicts && Clashes(cs, c))
        && (rv == EPERM <==> Disagrees(cs, c))
        && (rv == 0 <==> !Refused(cs, c, ignoreConflicts))
    {
      forall cs | FaithfulUpTo(Now(), cs, c.owner.index)
        ensures Faithful(Collect(Now(), c, ignoreConflicts).0, cs + [c])
      {
        CollectKeeps(Now(), cs, c, ignoreConflicts);
      }
      forall cs | Exact(Now(), cs) && UpTo(cs, c.owner.index)
        ensures Exact(Collect(Now(), c, ignoreConflicts).0, cs + [c])
        ensures Collect(Now(), c, ignoreConflicts).1 == CodeOf(cs, c, ignoreConflicts)
      {
        CollectExact(Now(), cs, c, ignoreConflicts);
      }
      rv := UpdateItem(c, ignoreConflicts);
    }

    method UpdateItem(c: Claim, ignoreConflicts: bool) returns (rv: int)
      modifies this`table, this`order
      ensures (Now(), rv) == Collect(old(Now()), c, ignoreConflicts)
    {
      rv := 0;
      if c.path !in table {
        order := order + [c.path];
        table := table[c.path := Fresh(c)];
        return;
      }
      var it := table[c.path];
      if c.removefile {
        if it.gone.None? {
          it := it.(gone := Some(c.owner));
        } else if c.owner.typ == Dir && it.gone.value.typ == Dir {
          var o := it.gone.value;
          if !(c.owner.index < o.index || o.preserve) {
            it := it.(gone := Some(o.(pkgname := c.owner.pkgname, index := c.owner.index, preserve := c.owner.preserve,
              update := c.owner.update, removepkg := c.owner.removepkg)));
          }
        } else if it.gone.value.preserve && !c.owner.preserve {
          rv := EPERM;
        } else if c.owner.preserve && !it.gone.value.preserve {
          rv := EPERM;
        }
      } else if it.made.None? {
        it := it.(made := Some(c.owner));
      } else if !(c.owner.typ == Dir && it.made.value.typ == Dir) && !ignoreConflicts {
        rv := EEXIST;
      }
      table := table[c.path := it];
    }

    /** Records the claims of one file list, all creations or all removals: no error exactly
        when none of them is refused, otherwise EEXIST or EPERM. */
    method CollectFiles(claims: seq<Claim>, ignoreConflicts: bool) returns (rv: int)
      modifies this`table, this`order
      ensures (Now(), rv) == CollectList(old(Now()), claims, false, ignoreConflicts)
      ensures forall cs, index, removefile ::
        Exact(old(Now()), cs) && UpTo(cs, index) && AllFrom(claims, index, removefile) ==>
          && rv == (if Accepted(cs, claims, ignoreConflicts) then 0 else if removefile then EPERM else EEXIST)
          && (rv == 0 ==> Exact(Now(), cs + claims))
    {
      ListCodes(Now(), claims, ignoreConflicts);
      rv := CollectEach(claims, ignoreConflicts);
    }

    /** The loops over the file list. */
    method CollectEach(claims: seq<Claim>, ignoreConflicts: bool) returns (rv: int)
      modifies this`table, this`order
      ensures (Now(), rv) == CollectList(old(Now()), claims, false, ignoreConflicts)
    {
      var i, error := 0, false;
      while i < |claims|
        invariant 0 <= i <= |claims|
        invariant CollectList(Now(), claims[i..], error, ignoreConflicts)
          == CollectList(old(Now()), claims, false, ignoreConflicts)
      {
        assert claims[i..][1..] == claims[i + 1..];
        rv := CollectFile(claims[i], ignoreConflicts);
        if rv == EEXIST {
          error := true;
        } else if rv != 0 {
          if error {
            rv := EEXIST;
          }
          return;
        }
        i := i + 1;
      }
      rv := if error then EEXIST else 0;
    }

    /** Collects the files of every member, then sorts the item array. */
    method CollectAll(members: seq<Member>, ignoreConflicts: bool) returns (rv: int)
      requires Now() == Collected(map[], []) && MembersOk(members)
      modifies this`table, this`order, this`items
      ensures (Now(), rv) == CollectMembers(members, |members|, ignoreConflicts)
      ensures rv == 0 ==> Arranged(items, table)
      ensures var cs := ClaimsUpTo(members, |members|);
        && (rv == 0 <==> (ignoreConflicts || NoClash(cs)) && NoDisagreement(cs))
        && (rv == 0 ==> Exact(Now(), cs))
        && (rv != 0 ==> DecidedBy(rv, cs, ignoreConflicts))
    {
      CollectionCode(members, ignoreConflicts);
      rv := CollectEvery(members, ignoreConflicts);
      if rv == 0 {
        CollectionFaithful(members, |members|, ignoreConflicts);
        SortAll();
      }
    }

    /** The loop over the transaction, up to the first error. */
    method CollectEvery(members: seq<Member>, ignoreConflicts: bool) returns (rv: int)
      requires Now() == Collected(map[], [])
      modifies this`table, this`order
      ensures (Now(), rv) == CollectMembers(members, |members|, ignoreConflicts)
    {
      var n := 0;
      rv := 0;
      while n < |members| && rv == 0
        invariant 0 <= n <= |members|
        invariant (Now(), rv) == CollectMembers(members, n, ignoreConflicts)
      {
        rv := CollectFiles(members[n].creates, ignoreConflicts);
        if rv == 0 {
          rv := CollectFiles(members[n].removes, ignoreConflicts);
        }
        n := n + 1;
      }
      FailureStays(members, n, |members|, ignoreConflicts);
    }

    method SortAll()
      requires Keyed(Now())
      modifies this`items
      ensures Arranged(items, table)
    {
      var paths, t := order, table;
      assert forall i :: 0 <= i < |paths| ==> paths[i] in t;
      var unsorted := seq(|paths|, i requires 0 <= i < |paths| && paths[i] in t => t[paths[i]]);
      assert forall i :: 0 <= i < |paths| ==> unsorted[i].file == paths[i];
      items := SortItems(unsorted);
      SortedArranged(Now(), unsorted, items);
    }

    /** The loop of can_delete_directory over the items before the directory. */
    method CanDelete(i: nat, env: Env) returns (ok: bool)
      requires i < |items|
      ensures ok == CanDeleteDirectory(items, i, deleted, items[i].file, env.dir(items[i].file))
    {
      var dir := items[i].file;
      match env.dir(dir)
      case Missing => ok := true;
      case Unreadable => ok := false;
      case Listed(visible) =>
        var rmcount, j := 0, 0;
        while j < i
          invariant 0 <= j <= i && rmcount == CountBeneath(items, j, dir)
          invariant forall k :: 0 <= k < j && Beneath(dir, items[k].file) ==> items[k].file in deleted
        {
          if Beneath(dir, items[j].file) {
            if items[j].file !in deleted {
              return false;
            }
            rmcount := rmcount + 1;
          }
          j := j + 1;
        }
        ok := visible <= rmcount;
    }

    method CollectObsoletes(env: Env) returns (rv: int)
      requires Owned(items) && deleted == {} && obsoletes == map[]
      modifies this`deleted, this`obsoletes
      ensures var p := PlanUpTo(items, |items|, env); obsoletes == p.obsoletes && deleted == p.deleted && rv == p.rv
    {
      var i := 0;
      rv := 0;
      while i < |items|
        invariant 0 <= i <= |items|
        invariant PlanUpTo(items, i, env) == Plan(deleted, obsoletes, rv, false)
      {
        var it := items[i];
        ghost var before := Plan(deleted, obsoletes, rv, false);
        if it.file in env.preserved {
        } else if it.made.None? && it.gone.value.preserve {
        } else if it.made.Some? && (it.made.value.typ == ConfFile || it.gone.None?) {
        } else if it.made.Some? && it.gone.value.typ == Dir && it.made.value.typ != Dir {
          var ok := CanDelete(i, env);
          if !ok {
            assert PlanUpTo(items, i + 1, env).failed;
            FailedPlanStays(items, i + 1, |items|, env);
            return ENOTEMPTY;
          }
          rv := RemoveItem(it, rv, env);
        } else if it.made.None? || it.made.value.typ != it.gone.value.typ {
          rv := RemoveItem(it, rv, env);
        }
        assert Plan(deleted, obsoletes, rv, false) == Visit(items, i, env, before);
        i := i + 1;
      }
    }

    /** The checks common to every obsolete path, and its scheduling: the lists stay as
        they are, or the path joins the end of its remover's list and is marked. */
    method RemoveItem(it: Item, before: int, env: Env) returns (rv: int)
      requires it.gone.Some?
      modifies this`deleted, this`obsoletes
      ensures VisitEffect(it, Plan(old(deleted), old(obsoletes), before, false), Plan(deleted, obsoletes, rv, false))
      ensures Plan(deleted, obsoletes, rv, false)
        == Obsolete(Plan(old(deleted), old(obsoletes), before, false), it, env)
    {
      rv := before;
      var o := it.gone.value;
      if it.file in env.baseSymlinks {
        return;
      }
      if o.sha256.Some? {
        match env.sha(it.file, o.sha256.value)
        case Matches => rv := 0;
        case Absent =>
          rv := 0;
          deleted := deleted + {it.file};
          return;
        case Mismatch =>
          rv := 0;
          if !(o.removepkg && it.made.None? && env.forceRemove) {
            return;
          }
        case ReadError(errno) => rv := errno;
      }
      if o.removepkg && o.typ == Link && it.made.None? && !env.forceRemove {
        if env.link(it.file) != Some(o.target) {
          return;
        }
      }
      var pkg := o.pkgname;
      if it.made.Some? && o.index > it.made.value.index {
        pkg := it.made.value.pkgname;
      }
      deleted := deleted + {it.file};
      obsoletes := obsoletes[pkg := (if pkg in obsoletes then obsoletes[pkg] else []) + [it.file]];
    }

    /** Collects the files of the members and decides what each deletes. */
    method PlanMembers(members: seq<Member>, ignoreConflicts: bool, env: Env) returns (rv: int)
      requires Now() == Collected(map[], []) && deleted == {} && obsoletes == map[]
      requires MembersOk(members) && DistinctNames(members)
      modifies this
      ensures rv == 0 ==> Gathered(members, ignoreConflicts, table) && Arranged(items, table)
      ensures rv == 0 ==> Sound(items, |items|, obsoletes) && Ordered(obsoletes)
      ensures rv == 0 ==> ExactUpTo(items, |items|, env, Plan(deleted, obsoletes, rv, false))
      ensures Conflicting(members, ignoreConflicts) ==>
        DecidedBy(rv, ClaimsUpTo(members, |members|), ignoreConflicts)
      ensures !Conflicting(members, ignoreConflicts) ==> Arranged(items, table)
      ensures !Conflicting(members, ignoreConflicts) && ObstructedBefore(items, |items|, env) ==> rv == ENOTEMPTY
    {
      rv := CollectAll(members, ignoreConflicts);
      if rv == 0 {
        rv := CollectObsoletes(env);
        PlanFailsIff(items, env);
        PlanSound(items, |items|, env);
        if rv == 0 {
          PlanExact(items, env);
        }
      }
    }

    /** From the transaction to the file system: when collection and planning succeed,
        the commit deletes what is planned for the members that delete, and nothing that
        was extracted before. */
    method PlanAndCommit(members: seq<Member>, ignoreConflicts: bool, env: Env, fs: FileSystem, ok: nat -> bool)
      returns (rv: int, end: FileSystem)
      requires Now() == Collected(map[], []) && deleted == {} && obsoletes == map[]
      requires MembersOk(members) && DistinctNames(members)
      modifies this
      ensures rv != 0 ==> end == fs
      ensures Conflicting(members, ignoreConflicts) ==>
        rv != 0 && DecidedBy(rv, ClaimsUpTo(members, |members|), ignoreConflicts)
      ensures rv == 0 ==> NoLateDelete(CommitOps(members, |members|, obsoletes))
      ensures rv == 0 ==> ExactUpTo(items, |items|, env, Plan(deleted, obsoletes, rv, false))
      ensures rv == 0 ==> forall k: nat, j: nat :: k < |members| ==> Gone(members, obsoletes, ok, end, k, j)
      ensures rv == 0 ==> end == Run(fs, CommitOps(members, |members|, obsoletes), ok)
    {
      end := fs;
      rv := PlanMembers(members, ignoreConflicts, env);
      if rv == 0 {
        CommitOrder(members, ignoreConflicts, table, items, obsoletes, |members|);
        end := Commit(members, fs, ok);
      }
    }

    /** The main loop of the commit: members in transaction order, each deleting
        its obsolete paths and then extracting its files. What a member that deletes was
        to delete is absent at the end unless that failed or it was written again. */
    method Commit(members: seq<Member>, fs: FileSystem, ok: nat -> bool) returns (end: FileSystem)
      ensures end == Run(fs, CommitOps(members, |members|, obsoletes), ok)
      ensures forall k: nat, j: nat :: k < |members| ==> Gone(members, obsoletes, ok, end, k, j)
    {
      forall k: nat, j: nat | k < |members|
        ensures Gone(members, obsoletes, ok, Run(fs, CommitOps(members, |members|, obsoletes), ok), k, j)
      {
        CommitDeletes(members, obsoletes, fs, ok, k, j);
      }
      end := CommitAll(members, fs, ok);
    }

    method CommitAll(members: seq<Member>, fs: FileSystem, ok: nat -> bool) returns (end: FileSystem)
      ensures end == Run(fs, CommitOps(members, |members|, obsoletes), ok)
    {
      end := fs;
      ghost var done: seq<Op> := [];
      var n, step := 0, 0;
      while n < |members|
        invariant 0 <= n <= |members| && done == CommitOps(members, n, obsoletes)
        invariant end == Run(fs, done, ok) && step == |done|
      {
        var m := members[n];
        end, step := CommitMember(m, fs, done, ok, end, step);
        done := done + MemberDeletes(m, obsoletes) + Extracts(m.extracts, m.pkgname);
        CommitOpsNext(members, n, obsoletes);
        n := n + 1;
      }
    }

    method CommitMember(m: Member, ghost fs: FileSystem, ghost done: seq<Op>, ok: nat -> bool, now: FileSystem,
      step: nat)
      returns (end: FileSystem, next: nat)
      requires now == Run(fs, done, ok) && step == |done|
      ensures var all := done + MemberDeletes(m, obsoletes) + Extracts(m.extracts, m.pkgname);
        end == Run(fs, all, ok) && next == |all|
    {
      end, next := now, step;
      if m.deletes {
        var paths := if m.pkgname in obsoletes then obsoletes[m.pkgname] else [];
        end, next := ApplyAll(fs, done, Deletes(paths), ok, end, next);
      }
      ghost var dels := MemberDeletes(m, obsoletes);
      assert !m.deletes ==> done + dels == done;
      end, next := ApplyAll(fs, done + dels, Extracts(m.extracts, m.pkgname), ok, end, next);
    }
  }

  /** Carries out the given operations one after the other. */
  method ApplyAll(ghost fs: FileSystem, ghost done: seq<Op>, ops: seq<Op>, ok: nat -> bool, now: FileSystem, step: nat)
    returns (end: FileSystem, next: nat)
    requires now == Run(fs, done, ok) && step == |done|
    ensures end == Run(fs, done + ops, ok) && next == |done + ops|
  {
    end, next := now, step;
    var i := 0;
    assert done + ops[..0] == done;
    while i < |ops|
      invariant 0 <= i <= |ops| && next == |done| + i && end == Run(fs, done + ops[..i], ok)
    {
      RunStep(fs, done + ops[..i], ops[i], ok);
      assert done + ops[..i + 1] == done + ops[..i] + [ops[i]];
      end := Apply(end, ops[i], ok(next));
      next, i := next + 1, i + 1;
    }
    assert ops[..i] == ops;
  }

  lemma RunStep(fs: FileSystem, ops: seq<Op>, op: Op, ok: nat -> bool)
    ensures Run(fs, ops + [op], ok) == Apply(Run(fs, ops, ok), op, ok(|ops|))
  {
    assert (ops + [op])[..|ops|] == ops;
  }

  lemma {:induction false} FailureStays(members: seq<Member>, m: nat, n: nat, ignoreConflicts: bool)
    requires m <= n <= |members| && (m < n ==> CollectMembers(members, m, ignoreConflicts).1 != 0)
    ensures CollectMembers(members, n, ignoreConflicts) == CollectMembers(members, m, ignoreConflicts)
    decreases n
  {
    if m < n {
      FailureStays(members, m, n - 1, ignoreConflicts);
    }
  }

  lemma {:induction false} FailedPlanStays(items: seq<Item>, m: nat, n: nat, env: Env)
    requires Owned(items) && m <= n <= |items| && PlanUpTo(items, m, env).failed
    ensures PlanUpTo(items, n, env) == PlanUpTo(items, m, env)
    decreases n
  {
    if m < n {
      FailedPlanStays(items, m, n - 1, env);
    }
  }

  lemma SortedArranged(st: Collected, unsorted: seq<Item>, items: seq<Item>)
    requires Keyed(st) && |unsorted| == |st.order|
    requires forall i :: 0 <= i < |st.order| ==> st.order[i] in st.table && unsorted[i] == st.table[st.order[i]]
    requires OnePerPath(items) && LongestFirst(items) && forall it :: it in items <==> it in unsorted
    ensures Arranged(items, st.table)
  {
    forall i | 0 <= i < |items|
      ensures items[i].file in st.table && st.table[items[i].file] == items[i]
      ensures items[i].gone.Some? || items[i].made.Some?
    {
      assert items[i] in unsorted;
      var j :| 0 <= j < |unsorted| && unsorted[j] == items[i];
    }
    forall p | p in st.table ensures exists i :: 0 <= i < |items| && items[i].file == p {
      assert p in st.order;
      var j :| 0 <= j < |st.order| && st.order[j] == p;
      assert unsorted[j] in items;
    }
  }
}
