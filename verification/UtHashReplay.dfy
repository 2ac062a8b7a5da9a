/** Any sequence of lookups, additions and deletions on the hash table, compared
    with the same sequence on a plain list of keys. */
module UtHashReplay {
  import opened Sequences
  import opened UtHash

  datatype Op = AddKey(key: string) | DeleteKey(key: string) | FindKey(key: string)

  function Remove(keys: seq<string>, key: string): seq<string> {
    if keys == [] then []
    else if keys[0] == key then keys[1..]
    else [keys[0]] + Remove(keys[1..], key)
  }

  /** What one operation does to a plain list of keys. */
  function PlainNext(keys: seq<string>, op: Op): seq<string> {
    match op
    case AddKey(key) => if key in keys then keys else keys + [key]
    case DeleteKey(key) => Remove(keys, key)
    case FindKey(_) => keys
  }

  /** The keys present, in insertion order, after the operations. */
  function PlainKeys(ops: seq<Op>): seq<string> {
    if ops == [] then []
    else PlainNext(PlainKeys(ops[..|ops| - 1]), ops[|ops| - 1])
  }

  /** What each operation finds under its key before it acts. */
  function PlainAnswers(ops: seq<Op>): seq<bool> {
    seq(|ops|, i requires 0 <= i < |ops| => ops[i].key in PlainKeys(ops[..i]))
  }

  ghost function Keys(q: seq<Handle>): seq<string> {
    seq(|q|, i requires 0 <= i < |q| => q[i].key)
  }

  lemma KeysContents(q: seq<Handle>, key: string)
    requires DistinctKeys(q)
    ensures key in ContentsOf(q) <==> key in Keys(q)
    ensures key in ContentsOf(q) ==> ContentsOf(q)[key] in q && ContentsOf(q)[key].key == key
  {
    if key in Keys(q) {
      var i :| 0 <= i < |q| && Keys(q)[i] == key;
      assert q[i].key == key;
    }
    if key in ContentsOf(q) {
      var i :| 0 <= i < |q| && q[i].key == key;
      assert Keys(q)[i] == key;
    }
  }

  lemma {:induction false} KeysWithoutOne(q: seq<Handle>, k: nat)
    requires DistinctKeys(q) && k < |q|
    ensures Keys(Without(q, k)) == Remove(Keys(q), q[k].key)
  {
    if k == 0 {
      assert Keys(Without(q, k)) == Keys(q)[1..];
    } else {
      assert Keys(q)[1..] == Keys(q[1..]);
      KeysWithoutOne(q[1..], k - 1);
      assert Without(q, k) == [q[0]] + Without(q[1..], k - 1);
      assert Keys(Without(q, k)) == [q[0].key] + Keys(Without(q[1..], k - 1));
    }
  }

  /** HASH_ITER: the elements in insertion order. */
  method Iterate(t: Table) returns (keys: seq<string>)
    requires t.Valid()
    ensures keys == Keys(t.app)
  {
    keys := [];
    var h := t.head;
    ghost var i := 0;
    while h != null
      invariant 0 <= i <= |t.app| && h == At(t.app, i) && keys == Keys(t.app[..i])
      decreases |t.app| - i
    {
      keys := keys + [h.key];
      assert t.app[..i + 1] == t.app[..i] + [h];
      h := h.next;
      i := i + 1;
    }
    assert t.app[..i] == t.app;
  }

  method Insert(t: Table, key: string)
    requires t.Valid() && key !in t.Contents()
    modifies t, t.app
    ensures t.Valid() && Keys(t.app) == old(Keys(t.app)) + [key]
    ensures forall x :: x in t.app && x !in old(t.app) ==> fresh(x)
  {
    ghost var before := t.app;
    var n := new Handle(key, t.hash(key));
    t.Add(n);
    KeysAppend(before, n);
  }

  lemma KeysAppend(q: seq<Handle>, h: Handle)
    ensures Keys(q + [h]) == Keys(q) + [h.key]
  {
  }

  method Erase(t: Table, h: Handle)
    requires t.Valid() && h in t.app
    modifies t, t.app
    ensures t.Valid() && Keys(t.app) == Remove(old(Keys(t.app)), h.key)
    ensures forall x :: x in t.app ==> x in old(t.app)
  {
    ghost var before := t.app;
    t.Delete(h);
    ghost var k: nat :| k < |before| && before[k] == h && t.app == Without(before, k);
    KeysWithoutOne(before, k);
  }

  /** One operation: a lookup, then an addition of an absent key or a deletion of a
      present one. */
  method Perform(t: Table, op: Op) returns (found: bool)
    requires t.Valid()
    modifies t, t.app
    ensures t.Valid() && forall x :: x in t.app && x !in old(t.app) ==> fresh(x)
    ensures found == (op.key in old(Keys(t.app)))
    ensures Keys(t.app) == PlainNext(old(Keys(t.app)), op)
  {
    var h := t.Find(op.key);
    KeysContents(t.app, op.key);
    found := h != null;
    match op
    case FindKey(key) =>
    case AddKey(key) =>
      if h == null {
        Insert(t, key);
      }
    case DeleteKey(key) =>
      if h != null {
        Erase(t, h);
      } else {
        RemoveAbsent(Keys(t.app), key);
      }
  }

  lemma {:induction false} RemoveAbsent(keys: seq<string>, key: string)
    requires key !in keys
    ensures Remove(keys, key) == keys
  {
    if keys != [] {
      RemoveAbsent(keys[1..], key);
    }
  }

  /** The table and the answers so far agree with the plain list after i operations. */
  ghost predicate Agrees(t: Table, ops: seq<Op>, i: nat, answers: seq<bool>)
    reads t`app
  {
    i <= |ops| && Keys(t.app) == PlainKeys(ops[..i]) && answers == PlainAnswers(ops[..i])
  }

  method PerformNext(t: Table, ops: seq<Op>, i: nat, before: seq<bool>) returns (answers: seq<bool>)
    requires t.Valid() && i < |ops| && Agrees(t, ops, i, before)
    modifies t, t.app
    ensures t.Valid() && Agrees(t, ops, i + 1, answers)
    ensures fresh(Elements(t.app) - Elements(old(t.app)))
  {
    var found := Perform(t, ops[i]);
    PlainKeysNext(ops, i);
    AnswersStep(ops, i);
    answers := before + [found];
  }

  /** For every hash function and every sequence of operations, the table answers
      as the plain list does and holds the same keys in the same order. */
  method Replay(hash: string -> nat, ops: seq<Op>) returns (answers: seq<bool>, keys: seq<string>)
    ensures answers == PlainAnswers(ops)
    ensures keys == PlainKeys(ops)
  {
    var t := new Table(hash);
    answers := [];
    var i := 0;
    while i < |ops|
      invariant 0 <= i <= |ops| && t.Valid() && Agrees(t, ops, i, answers)
      invariant fresh(t) && fresh(Elements(t.app))
    {
      assert forall k :: 0 <= k < |t.app| ==> t.app[k] in Elements(t.app);
      answers := PerformNext(t, ops, i, answers);
      i := i + 1;
    }
    assert ops[..i] == ops;
    keys := Iterate(t);
  }

  lemma PlainKeysNext(ops: seq<Op>, i: nat)
    requires i < |ops|
    ensures PlainKeys(ops[..i + 1]) == PlainNext(PlainKeys(ops[..i]), ops[i])
  {
    assert ops[..i + 1][..i] == ops[..i];
  }

  lemma AnswersStep(ops: seq<Op>, i: nat)
    requires i < |ops|
    ensures PlainAnswers(ops[..i + 1]) == PlainAnswers(ops[..i]) + [ops[i].key in PlainKeys(ops[..i])]
  {
    var p := ops[..i + 1];
    forall j | 0 <= j < i ensures p[..j] == ops[..i][..j] {
    }
    assert p[..i] == ops[..i];
  }
}
