/** What collecting the files of a transaction records and when it fails, stated on the
    sequence of all claims alone. */
module FileConflicts {
  import opened Wrappers
  import opened TransactionFiles

  predicate Of(c: Claim, path: string, removefile: bool) {
    c.path == path && c.removefile == removefile
  }

  ghost predicate NoneOf(cs: seq<Claim>, path: string, removefile: bool) {
    forall i :: 0 <= i < |cs| ==> !Of(cs[i], path, removefile)
  }

  /** Claim f is the first of its kind for the path. */
  ghost predicate First(cs: seq<Claim>, f: nat, path: string, removefile: bool) {
    f < |cs| && Of(cs[f], path, removefile) && forall i :: 0 <= i < f ==> !Of(cs[i], path, removefile)
  }

  predicate RemovesDir(c: Claim, path: string) {
    Of(c, path, true) && c.owner.typ == Dir
  }

  /** Claim k is the one on whose behalf the path is removed, f being the first to remove
      it: f itself, but for a directory the first that preserves it, or else the last. */
  ghost predicate Keeper(cs: seq<Claim>, path: string, f: nat, k: nat)
    requires f < |cs|
  {
    && k < |cs|
    && if cs[f].owner.typ != Dir then k == f
       else
         && RemovesDir(cs[k], path)
         && (forall i :: 0 <= i < k && RemovesDir(cs[i], path) ==> !cs[i].owner.preserve)
         && (cs[k].owner.preserve || forall i :: k < i < |cs| ==> !RemovesDir(cs[i], path))
  }

  /** The creator recorded is the first one, with its type. */
  ghost predicate MadeBy(cs: seq<Claim>, path: string, made: Option<Owner>) {
    match made
    case None => NoneOf(cs, path, false)
    case Some(o) => exists f: nat :: First(cs, f, path, false) && o == cs[f].owner
  }

  /** The remover recorded is the keeper, with type, checksum and target of the first. */
  ghost predicate GoneBy(cs: seq<Claim>, path: string, gone: Option<Owner>) {
    match gone
    case None => NoneOf(cs, path, true)
    case Some(o) => exists f: nat, k: nat :: GoneFrom(cs, path, o, f, k)
  }

  ghost predicate GoneFrom(cs: seq<Claim>, path: string, o: Owner, f: nat, k: nat) {
    && First(cs, f, path, true) && Keeper(cs, path, f, k)
    && o == cs[k].owner.(typ := cs[f].owner.typ, sha256 := cs[f].owner.sha256, target := cs[f].owner.target)
  }

  function ItemAt(st: Collected, path: string): Item {
    if path in st.table then st.table[path] else Item(path, None, None)
  }

  ghost predicate ExactAt(st: Collected, cs: seq<Claim>, path: string) {
    MadeBy(cs, path, ItemAt(st, path).made) && GoneBy(cs, path, ItemAt(st, path).gone)
  }

  /** The table is what the claims say, path by path. */
  ghost predicate Exact(st: Collected, cs: seq<Claim>) {
    forall path :: ExactAt(st, cs, path)
  }

  predicate UpTo(cs: seq<Claim>, index: nat) {
    forall i :: 0 <= i < |cs| ==> cs[i].owner.index <= index
  }

  // ---------------------------------------------------------------------
  // Conflicts
  // ---------------------------------------------------------------------

  /** Both create one path and not both as a directory. */
  predicate CreateBoth(b: Claim, c: Claim) {
    b.path == c.path && !b.removefile && !c.removefile && !(b.owner.typ == Dir && c.owner.typ == Dir)
  }

  /** c creates a path that has a first creator, and not both create a directory. */
  ghost predicate Clashes(before: seq<Claim>, c: Claim) {
    exists f: nat :: First(before, f, c.path, false) && CreateBoth(before[f], c)
  }

  /** The path is preserved by what has been claimed so far, f being the first to remove it. */
  ghost predicate Preserved(before: seq<Claim>, path: string, f: nat)
    requires f < |before|
  {
    if before[f].owner.typ != Dir then before[f].owner.preserve
    else exists i :: 0 <= i < |before| && RemovesDir(before[i], path) && before[i].owner.preserve
  }

  /** c removes a path that is removed already, not both as a directory, and only one of
      the two preserves it. */
  ghost predicate Disagrees(before: seq<Claim>, c: Claim) {
    c.removefile && exists f: nat :: First(before, f, c.path, true) && Violates(before, f, c)
  }

  ghost predicate Violates(before: seq<Claim>, f: nat, c: Claim)
    requires f < |before|
  {
    !(before[f].owner.typ == Dir && c.owner.typ == Dir) && Preserved(before, c.path, f) != c.owner.preserve
  }

  ghost predicate Refused(before: seq<Claim>, c: Claim, ignoreConflicts: bool) {
    (!ignoreConflicts && Clashes(before, c)) || Disagrees(before, c)
  }

  // ---------------------------------------------------------------------
  // One claim
  // ---------------------------------------------------------------------

  lemma FirstMore(cs: seq<Claim>, c: Claim, f: nat, path: string, removefile: bool)
    requires First(cs, f, path, removefile)
    ensures First(cs + [c], f, path, removefile)
  {
  }

  lemma FirstUnique(cs: seq<Claim>, f: nat, g: nat, path: string, removefile: bool)
    requires First(cs, f, path, removefile) && First(cs, g, path, removefile)
    ensures f == g
  {
  }

  lemma NoneMore(cs: seq<Claim>, c: Claim, path: string, removefile: bool)
    requires NoneOf(cs, path, removefile)
    ensures Of(c, path, removefile) ==> First(cs + [c], |cs|, path, removefile)
    ensures !Of(c, path, removefile) ==> NoneOf(cs + [c], path, removefile)
  {
  }

  lemma MadeMore(cs: seq<Claim>, c: Claim, path: string, made: Option<Owner>)
    requires MadeBy(cs, path, made)
    ensures made.Some? || !Of(c, path, false) ==> MadeBy(cs + [c], path, made)
    ensures made.None? && Of(c, path, false) ==> MadeBy(cs + [c], path, Some(c.owner))
  {
    if made.Some? {
      var f: nat :| First(cs, f, path, false) && made.value == cs[f].owner;
      FirstMore(cs, c, f, path, false);
    } else {
      NoneMore(cs, c, path, false);
    }
  }

  lemma ClashesIff(cs: seq<Claim>, c: Claim, made: Option<Owner>)
    requires MadeBy(cs, c.path, made) && !c.removefile
    ensures Clashes(cs, c) <==> made.Some? && !(made.value.typ == Dir && c.owner.typ == Dir)
  {
    if made.Some? {
      var f: nat :| First(cs, f, c.path, false) && made.value == cs[f].owner;
    }
  }

  /** A claim that is not about removing the path, or not as a directory a directory. */
  lemma KeeperStays(cs: seq<Claim>, c: Claim, path: string, f: nat, k: nat)
    requires First(cs, f, path, true) && Keeper(cs, path, f, k)
    requires !RemovesDir(c, path) || cs[f].owner.typ != Dir || cs[k].owner.preserve
    ensures Keeper(cs + [c], path, f, k)
  {
  }

  /** Another package removes the directory, which nobody preserved so far. */
  lemma KeeperMoves(cs: seq<Claim>, c: Claim, path: string, f: nat, k: nat)
    requires First(cs, f, path, true) && Keeper(cs, path, f, k)
    requires RemovesDir(c, path) && cs[f].owner.typ == Dir && !cs[k].owner.preserve
    ensures Keeper(cs + [c], path, f, |cs|)
  {
    forall i | 0 <= i < |cs| && RemovesDir(cs[i], path) ensures !cs[i].owner.preserve {
      assert i <= k;
    }
  }

  lemma KeeperPreserves(cs: seq<Claim>, path: string, f: nat, k: nat)
    requires First(cs, f, path, true) && Keeper(cs, path, f, k)
    ensures Preserved(cs, path, f) <==> cs[k].owner.preserve
  {
  }

  lemma DisagreesIff(cs: seq<Claim>, c: Claim, gone: Option<Owner>)
    requires GoneBy(cs, c.path, gone) && c.removefile
    ensures Disagrees(cs, c) <==>
      gone.Some? && !(gone.value.typ == Dir && c.owner.typ == Dir) && gone.value.preserve != c.owner.preserve
  {
    if gone.Some? {
      var f: nat, k: nat :| GoneFrom(cs, c.path, gone.value, f, k);
      KeeperPreserves(cs, c.path, f, k);
      assert Disagrees(cs, c) <==> Violates(cs, f, c) by {
        forall g: nat | First(cs, g, c.path, true) ensures g == f {
          FirstUnique(cs, f, g, c.path, true);
        }
      }
    }
  }

  lemma GoneStays(cs: seq<Claim>, c: Claim, path: string, gone: Option<Owner>)
    requires GoneBy(cs, path, gone)
    requires Of(c, path, true) ==> gone.Some? && !(RemovesDir(c, path) && gone.value.typ == Dir && !gone.value.preserve)
    ensures GoneBy(cs + [c], path, gone)
  {
    if gone.Some? {
      var f: nat, k: nat :| GoneFrom(cs, path, gone.value, f, k);
      FirstMore(cs, c, f, path, true);
      KeeperStays(cs, c, path, f, k);
      assert GoneFrom(cs + [c], path, gone.value, f, k);
    } else {
      NoneMore(cs, c, path, true);
    }
  }

  lemma GoneStarts(cs: seq<Claim>, c: Claim)
    requires GoneBy(cs, c.path, None) && c.removefile
    ensures GoneBy(cs + [c], c.path, Some(c.owner))
  {
    NoneMore(cs, c, c.path, true);
    var n := |cs|;
    assert forall i :: 0 <= i < n ==> (cs + [c])[i] == cs[i];
    assert Keeper(cs + [c], c.path, n, n);
    assert GoneFrom(cs + [c], c.path, c.owner, n, n);
  }

  lemma GoneMoves(cs: seq<Claim>, c: Claim, o: Owner)
    requires GoneBy(cs, c.path, Some(o)) && RemovesDir(c, c.path) && o.typ == Dir && !o.preserve
    ensures GoneBy(cs + [c], c.path, Some(c.owner.(typ := o.typ, sha256 := o.sha256, target := o.target)))
  {
    var f: nat, k: nat :| GoneFrom(cs, c.path, o, f, k);
    FirstMore(cs, c, f, c.path, true);
    KeeperMoves(cs, c, c.path, f, k);
    var r := c.owner.(typ := o.typ, sha256 := o.sha256, target := o.target);
    assert GoneFrom(cs + [c], c.path, r, f, |cs|);
  }

  lemma GoneIndex(cs: seq<Claim>, path: string, o: Owner, index: nat)
    requires GoneBy(cs, path, Some(o)) && UpTo(cs, index)
    ensures o.index <= index
  {
    var f: nat, k: nat :| GoneFrom(cs, path, o, f, k);
  }

  lemma MergeExact(it: Item, cs: seq<Claim>, c: Claim, ignoreConflicts: bool)
    requires MadeBy(cs, c.path, it.made) && GoneBy(cs, c.path, it.gone) && UpTo(cs, c.owner.index)
    ensures var r := Merge(it, c, ignoreConflicts);
      && MadeBy(cs + [c], c.path, r.0.made) && GoneBy(cs + [c], c.path, r.0.gone)
      && r.1 == CodeOf(cs, c, ignoreConflicts)
  {
    MadeMore(cs, c, c.path, it.made);
    if c.removefile {
      DisagreesIff(cs, c, it.gone);
      if it.gone.None? {
        GoneStarts(cs, c);
      } else {
        var o := it.gone.value;
        GoneIndex(cs, c.path, o, c.owner.index);
        if RemovesDir(c, c.path) && o.typ == Dir && !o.preserve {
          GoneMoves(cs, c, o);
        } else {
          GoneStays(cs, c, c.path, it.gone);
        }
      }
    } else {
      ClashesIff(cs, c, it.made);
      GoneStays(cs, c, c.path, it.gone);
    }
  }

  /** The error that a claim deserves. */
  ghost function CodeOf(before: seq<Claim>, c: Claim, ignoreConflicts: bool): int {
    if !Refused(before, c, ignoreConflicts) then 0 else if c.removefile then EPERM else EEXIST
  }

  /** One claim: the table stays exact, and the error is the one the claim deserves. */
  lemma CollectExact(st: Collected, cs: seq<Claim>, c: Claim, ignoreConflicts: bool)
    requires Exact(st, cs) && UpTo(cs, c.owner.index)
    ensures Exact(Collect(st, c, ignoreConflicts).0, cs + [c])
    ensures Collect(st, c, ignoreConflicts).1 == CodeOf(cs, c, ignoreConflicts)
  {
    var r := Collect(st, c, ignoreConflicts);
    assert ExactAt(st, cs, c.path);
    MergeExact(ItemAt(st, c.path), cs, c, ignoreConflicts);
    assert Merge(Item(c.path, None, None), c, ignoreConflicts) == (Fresh(c), 0);
    forall path ensures ExactAt(r.0, cs + [c], path) {
      assert ExactAt(st, cs, path);
      if path != c.path {
        MadeMore(cs, c, path, ItemAt(st, path).made);
        GoneStays(cs, c, path, ItemAt(st, path).gone);
      }
    }
  }

  // ---------------------------------------------------------------------
  // All claims
  // ---------------------------------------------------------------------

  /** No claim of the list is refused, those before it being cs. */
  ghost predicate Accepted(cs: seq<Claim>, claims: seq<Claim>, ignoreConflicts: bool) {
    forall j :: 0 <= j < |claims| ==> !Refused(cs + claims[..j], claims[j], ignoreConflicts)
  }

  lemma AcceptedCons(cs: seq<Claim>, claims: seq<Claim>, ignoreConflicts: bool)
    requires claims != []
    ensures Accepted(cs, claims, ignoreConflicts) <==>
      !Refused(cs, claims[0], ignoreConflicts) && Accepted(cs + [claims[0]], claims[1..], ignoreConflicts)
  {
    var c, rest := claims[0], claims[1..];
    assert cs + claims[..0] == cs;
    forall j | 0 <= j < |rest| ensures cs + claims[..j + 1] == cs + [c] + rest[..j] && rest[j] == claims[j + 1] {
    }
    forall j | 1 <= j < |claims| ensures cs + claims[..j] == cs + [c] + rest[..j - 1] && rest[j - 1] == claims[j] {
    }
  }

  predicate AllFrom(claims: seq<Claim>, index: nat, removefile: bool) {
    forall i :: 0 <= i < |claims| ==> claims[i].owner.index == index && claims[i].removefile == removefile
  }

  /** A file list, all creations or all removals: it is collected without error exactly
      when none of its claims is refused; a refused creation gives EEXIST although the
      collection goes on, a refused removal EPERM. */
  lemma {:induction false} CollectListCode(st: Collected, cs: seq<Claim>, claims: seq<Claim>, error: bool,
    index: nat, removefile: bool, ignoreConflicts: bool)
    requires Exact(st, cs) && UpTo(cs, index) && (error ==> !removefile)
    requires AllFrom(claims, index, removefile)
    ensures var r := CollectList(st, claims, error, ignoreConflicts);
      && r.1 == (if !error && Accepted(cs, claims, ignoreConflicts) then 0 else if removefile then EPERM else EEXIST)
      && (r.1 == 0 ==> Exact(r.0, cs + claims))
    decreases |claims|
  {
    if claims == [] {
      assert cs + claims == cs;
    } else {
      var c := claims[0];
      var s := Collect(st, c, ignoreConflicts);
      CollectExact(st, cs, c, ignoreConflicts);
      AcceptedCons(cs, claims, ignoreConflicts);
      assert cs + claims == cs + [c] + claims[1..];
      if s.1 != EPERM {
        CollectListCode(s.0, cs + [c], claims[1..], error || s.1 == EEXIST, index, removefile, ignoreConflicts);
      }
    }
  }

  /** The same for every history of claims that the table may be exact for. */
  lemma ListCodes(st: Collected, claims: seq<Claim>, ignoreConflicts: bool)
    ensures var r := CollectList(st, claims, false, ignoreConflicts);
      forall cs, index, removefile :: Exact(st, cs) && UpTo(cs, index) && AllFrom(claims, index, removefile) ==>
        && r.1 == (if Accepted(cs, claims, ignoreConflicts) then 0 else if removefile then EPERM else EEXIST)
        && (r.1 == 0 ==> Exact(r.0, cs + claims))
  {
    forall cs, index, removefile | Exact(st, cs) && UpTo(cs, index) && AllFrom(claims, index, removefile)
      ensures var r := CollectList(st, claims, false, ignoreConflicts);
        && r.1 == (if Accepted(cs, claims, ignoreConflicts) then 0 else if removefile then EPERM else EEXIST)
        && (r.1 == 0 ==> Exact(r.0, cs + claims))
    {
      CollectListCode(st, cs, claims, false, index, removefile, ignoreConflicts);
    }
  }

  lemma AcceptedConcat(cs: seq<Claim>, a: seq<Claim>, b: seq<Claim>, ignoreConflicts: bool)
    ensures Accepted(cs, a + b, ignoreConflicts) <==>
      Accepted(cs, a, ignoreConflicts) && Accepted(cs + a, b, ignoreConflicts)
  {
    var all := a + b;
    forall j | 0 <= j < |a| ensures all[..j] == a[..j] && all[j] == a[j] {
    }
    forall j | 0 <= j < |b| ensures cs + all[..|a| + j] == cs + a + b[..j] && all[|a| + j] == b[j] {
    }
    forall j | |a| <= j < |all| ensures cs + all[..j] == cs + a + b[..j - |a|] && all[j] == b[j - |a|] {
    }
  }

  /** Claim j is the first that is refused. */
  ghost predicate FirstRefused(cs: seq<Claim>, j: nat, ignoreConflicts: bool) {
    && j < |cs| && Refused(cs[..j], cs[j], ignoreConflicts)
    && forall i :: 0 <= i < j ==> !Refused(cs[..i], cs[i], ignoreConflicts)
  }

  lemma FirstRefusedIn(cs: seq<Claim>, a: nat, b: nat, ignoreConflicts: bool) returns (j: nat)
    requires a <= b <= |cs|
    requires forall i :: 0 <= i < a ==> !Refused(cs[..i], cs[i], ignoreConflicts)
    requires exists i :: a <= i < b && Refused(cs[..i], cs[i], ignoreConflicts)
    ensures a <= j < b && FirstRefused(cs, j, ignoreConflicts)
  {
    j := a;
    while j < b && !Refused(cs[..j], cs[j], ignoreConflicts)
      invariant a <= j <= b
      invariant forall i :: 0 <= i < j ==> !Refused(cs[..i], cs[i], ignoreConflicts)
    {
      j := j + 1;
    }
  }

  /** The first refused claim of a list that follows accepted ones. */
  lemma FirstRefusedAfter(cs: seq<Claim>, claims: seq<Claim>, ignoreConflicts: bool) returns (j: nat)
    requires Accepted([], cs, ignoreConflicts) && !Accepted(cs, claims, ignoreConflicts)
    ensures |cs| <= j < |cs + claims| && FirstRefused(cs + claims, j, ignoreConflicts)
  {
    var all := cs + claims;
    forall i | 0 <= i < |cs| ensures !Refused(all[..i], all[i], ignoreConflicts) {
      assert all[..i] == [] + cs[..i] && all[i] == cs[i];
    }
    var i :| 0 <= i < |claims| && Refused(cs + claims[..i], claims[i], ignoreConflicts);
    assert all[..|cs| + i] == cs + claims[..i] && all[|cs| + i] == claims[i];
    j := FirstRefusedIn(all, |cs|, |all|, ignoreConflicts);
  }

  lemma FirstRefusedMore(cs: seq<Claim>, more: seq<Claim>, j: nat, ignoreConflicts: bool)
    requires FirstRefused(cs, j, ignoreConflicts)
    ensures FirstRefused(cs + more, j, ignoreConflicts) && (cs + more)[j] == cs[j]
  {
    forall i | 0 <= i < |cs| ensures (cs + more)[..i] == cs[..i] {
    }
  }

  /** The first refused claim, of whatever package, decides the error. */
  ghost predicate DecidedBy(code: int, cs: seq<Claim>, ignoreConflicts: bool) {
    exists j: nat :: FirstRefused(cs, j, ignoreConflicts) && code == if cs[j].removefile then EPERM else EEXIST
  }

  lemma DecidedMore(code: int, cs: seq<Claim>, more: seq<Claim>, ignoreConflicts: bool)
    requires DecidedBy(code, cs, ignoreConflicts)
    ensures DecidedBy(code, cs + more, ignoreConflicts)
  {
    var j: nat :| FirstRefused(cs, j, ignoreConflicts) && code == if cs[j].removefile then EPERM else EEXIST;
    FirstRefusedMore(cs, more, j, ignoreConflicts);
  }

  /** What collecting says about the claims: no error exactly when none is refused, and
      then the table is exact; otherwise the error of the first that is refused. */
  ghost predicate Judged(r: (Collected, int), cs: seq<Claim>, ignoreConflicts: bool) {
    && (r.1 == 0 <==> Accepted([], cs, ignoreConflicts))
    && (r.1 == 0 ==> Exact(r.0, cs))
    && (r.1 != 0 ==> DecidedBy(r.1, cs, ignoreConflicts))
  }

  lemma JudgedList(st: Collected, cs: seq<Claim>, claims: seq<Claim>, pkgname: string, index: nat, removefile: bool,
    ignoreConflicts: bool)
    requires Accepted([], cs, ignoreConflicts) && Exact(st, cs) && UpTo(cs, index)
    requires AllOf(claims, pkgname, index, removefile)
    ensures Judged(CollectList(st, claims, false, ignoreConflicts), cs + claims, ignoreConflicts)
  {
    forall i | 0 <= i < |claims| ensures claims[i].owner.index == index && claims[i].removefile == removefile {
      assert OfPackage(claims[i], pkgname, index, removefile);
    }
    CollectListCode(st, cs, claims, false, index, removefile, ignoreConflicts);
    AcceptedConcat([], cs, claims, ignoreConflicts);
    assert [] + cs == cs;
    if !Accepted(cs, claims, ignoreConflicts) {
      var j := FirstRefusedAfter(cs, claims, ignoreConflicts);
      assert (cs + claims)[j] == claims[j - |cs|];
    }
  }

  lemma JudgedMore(r: (Collected, int), cs: seq<Claim>, more: seq<Claim>, ignoreConflicts: bool)
    requires Judged(r, cs, ignoreConflicts) && r.1 != 0
    ensures Judged(r, cs + more, ignoreConflicts)
  {
    DecidedMore(r.1, cs, more, ignoreConflicts);
    AcceptedConcat([], cs, more, ignoreConflicts);
  }

  lemma UpToMembers(members: seq<Member>, n: nat)
    requires MembersOk(members) && 1 <= n <= |members|
    ensures UpTo(ClaimsUpTo(members, n - 1), n) && UpTo(ClaimsUpTo(members, n - 1) + members[n - 1].creates, n)
  {
    var cs, m := ClaimsUpTo(members, n - 1), members[n - 1];
    ClaimsWithin(members, n - 1);
    forall i | 0 <= i < |cs| ensures cs[i].owner.index <= n {
      assert Within(members, n - 1, cs[i]);
    }
    forall i | 0 <= i < |m.creates| ensures m.creates[i].owner.index <= n {
      assert OfPackage(m.creates[i], m.pkgname, n, false);
    }
  }

  lemma {:induction false} MembersJudged(members: seq<Member>, n: nat, ignoreConflicts: bool)
    requires MembersOk(members) && n <= |members|
    ensures Judged(CollectMembers(members, n, ignoreConflicts), ClaimsUpTo(members, n), ignoreConflicts)
  {
    if n > 0 {
      MembersJudged(members, n - 1, ignoreConflicts);
      UpToMembers(members, n);
      var before, cs, m := CollectMembers(members, n - 1, ignoreConflicts), ClaimsUpTo(members, n - 1), members[n - 1];
      assert MemberOk(m, n);
      assert ClaimsUpTo(members, n) == cs + m.creates + m.removes == cs + (m.creates + m.removes);
      if before.1 != 0 {
        JudgedMore(before, cs, m.creates + m.removes, ignoreConflicts);
      } else {
        JudgedList(before.0, cs, m.creates, m.pkgname, n, false, ignoreConflicts);
        var created := CollectList(before.0, m.creates, false, ignoreConflicts);
        if created.1 != 0 {
          JudgedMore(created, cs + m.creates, m.removes, ignoreConflicts);
        } else {
          JudgedList(created.0, cs + m.creates, m.removes, m.pkgname, n, true, ignoreConflicts);
        }
      }
    }
  }

  // ---------------------------------------------------------------------
  // The same, pair by pair
  // ---------------------------------------------------------------------

  /** No two claims create one path, unless both create a directory. */
  predicate NoClash(cs: seq<Claim>) {
    forall i, j :: 0 <= i < j < |cs| ==> !CreateBoth(cs[i], cs[j])
  }

  ghost predicate NoDisagreement(cs: seq<Claim>) {
    forall j :: 0 <= j < |cs| ==> !Disagrees(cs[..j], cs[j])
  }

  lemma FirstBefore(cs: seq<Claim>, i: nat, path: string, removefile: bool) returns (f: nat)
    requires i < |cs| && Of(cs[i], path, removefile)
    ensures f <= i && First(cs, f, path, removefile)
  {
    f := 0;
    while !Of(cs[f], path, removefile)
      invariant 0 <= f <= i && forall k :: 0 <= k < f ==> !Of(cs[k], path, removefile)
      decreases i - f
    {
      f := f + 1;
    }
  }

  lemma PairClashes(cs: seq<Claim>, i: nat, j: nat)
    requires i < j < |cs| && CreateBoth(cs[i], cs[j])
    ensures Clashes(cs[..i], cs[i]) || Clashes(cs[..j], cs[j])
  {
    var path := cs[i].path;
    var f := FirstBefore(cs, i, path, false);
    assert First(cs[..j], f, path, false);
    if cs[f].owner.typ == Dir && cs[j].owner.typ == Dir {
      assert First(cs[..i], f, path, false);
    }
  }

  lemma NoClashIff(cs: seq<Claim>)
    ensures NoClash(cs) <==> forall j :: 0 <= j < |cs| ==> !Clashes(cs[..j], cs[j])
  {
    if forall j :: 0 <= j < |cs| ==> !Clashes(cs[..j], cs[j]) {
      forall i, j | 0 <= i < j < |cs| ensures !CreateBoth(cs[i], cs[j]) {
        if CreateBoth(cs[i], cs[j]) {
          PairClashes(cs, i, j);
        }
      }
    }
  }

  lemma AcceptedIff(cs: seq<Claim>, ignoreConflicts: bool)
    ensures Accepted([], cs, ignoreConflicts) <==> (ignoreConflicts || NoClash(cs)) && NoDisagreement(cs)
  {
    NoClashIff(cs);
    forall j | 0 <= j < |cs| ensures [] + cs[..j] == cs[..j] {
    }
  }

  /** Collecting the files of a whole transaction succeeds exactly when no two packages
      create one path other than as a directory (or conflicts are ignored) and no removal
      disagrees with another about preserving the path. On success the table records for
      each path its first creator and its keeper; on failure the code is EEXIST or EPERM,
      as the first refused claim creates or removes. */
  lemma CollectionCode(members: seq<Member>, ignoreConflicts: bool)
    requires MembersOk(members)
    ensures var r := CollectMembers(members, |members|, ignoreConflicts);
      var cs := ClaimsUpTo(members, |members|);
      && (r.1 == 0 <==> (ignoreConflicts || NoClash(cs)) && NoDisagreement(cs))
      && (r.1 == 0 ==> Exact(r.0, cs))
      && (r.1 != 0 ==> DecidedBy(r.1, cs, ignoreConflicts))
  {
    MembersJudged(members, |members|, ignoreConflicts);
    AcceptedIff(ClaimsUpTo(members, |members|), ignoreConflicts);
  }
}
