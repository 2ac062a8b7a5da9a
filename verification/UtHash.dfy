/** The intrusive hash table of uthash.h: elements carry two pairs of links, one
    for the list in insertion order and one for the chain of their bucket; the
    bucket array doubles when a chain gets long. */
module UtHash {
  import opened Sequences

  const INITIAL_LOG2 := 5
  const CAPACITY_THRESH := 10

  /** The hash handle of an element; prev and next link the insertion order,
      hhPrev and hhNext the bucket chain. */
  class Handle {
    const key: string
    const hashv: nat
    var prev: Handle?
    var next: Handle?
    var hhPrev: Handle?
    var hhNext: Handle?

    constructor (key: string, hashv: nat)
      ensures this.key == key && this.hashv == hashv
    {
      this.key, this.hashv := key, hashv;
      prev, next, hhPrev, hhNext := null, null, null, null;
    }
  }

  datatype Bucket = Bucket(head: Handle?, count: nat, mult: nat)

  function Pow2(n: nat): (r: nat)
    ensures r > 0
  {
    if n == 0 then 1 else 2 * Pow2(n - 1)
  }

  /** hashv & (num_buckets - 1), for a power of two. */
  function BucketOf(hashv: nat, buckets: nat): (b: nat)
    requires buckets > 0
    ensures b < buckets
  {
    hashv % buckets
  }

  function At(q: seq<Handle>, i: int): Handle? {
    if 0 <= i < |q| then q[i] else null
  }

  /** q is doubly linked in insertion order. */
  ghost predicate Listed(q: seq<Handle>)
    reads q`prev, q`next
  {
    && (forall i {:trigger q[i].prev} :: 0 <= i < |q| ==> q[i].prev == At(q, i - 1))
    && (forall i {:trigger q[i].next} :: 0 <= i < |q| ==> q[i].next == At(q, i + 1))
  }

  /** c is doubly linked as a bucket chain. */
  ghost predicate Chained(c: seq<Handle>)
    reads c`hhPrev, c`hhNext
  {
    && (forall i {:trigger c[i].hhPrev} :: 0 <= i < |c| ==> c[i].hhPrev == At(c, i - 1))
    && (forall i {:trigger c[i].hhNext} :: 0 <= i < |c| ==> c[i].hhNext == At(c, i + 1))
  }

  /** The bucket's chain: linked, counted, without repetition, and made of elements
      that hash to it. */
  ghost predicate BucketOk(bucket: Bucket, c: seq<Handle>, b: nat, buckets: nat)
    requires buckets > 0
    reads c`hhPrev, c`hhNext
  {
    && Chained(c) && Distinct(c) && bucket.head == At(c, 0) && bucket.count == |c|
    && forall i :: 0 <= i < |c| ==> BucketOf(c[i].hashv, buckets) == b
  }

  ghost predicate DistinctKeys(q: seq<Handle>) {
    forall i, j :: 0 <= i < j < |q| ==> q[i].key != q[j].key
  }

  // ---------------------------------------------------------------------
  // Chains
  // ---------------------------------------------------------------------

  /** Puts h at the head of the chain c of a bucket. */
  method AddToChain(bucket: Bucket, h: Handle, ghost c: seq<Handle>, ghost b: nat, ghost buckets: nat)
    returns (r: Bucket)
    requires buckets > 0 && BucketOk(bucket, c, b, buckets) && h !in c && BucketOf(h.hashv, buckets) == b
    modifies h`hhNext, h`hhPrev, c`hhPrev
    ensures BucketOk(r, [h] + c, b, buckets) && r.mult == bucket.mult
    ensures forall x :: x in c && x != At(c, 0) ==> x.hhPrev == old(x.hhPrev)
  {
    h.hhNext := bucket.head;
    h.hhPrev := null;
    if bucket.head != null {
      bucket.head.hhPrev := h;
    }
    r := bucket.(count := bucket.count + 1, head := h);
  }

  /** Every element but the k-th is linked as if the k-th were not there. */
  ghost predicate ChainedAround(c: seq<Handle>, k: nat)
    reads c`hhPrev, c`hhNext
  {
    && (forall i {:trigger c[i].hhPrev} :: 0 <= i < |c| && i != k ==>
      c[i].hhPrev == At(c, if i == k + 1 then k - 1 else i - 1))
    && (forall i {:trigger c[i].hhNext} :: 0 <= i < |c| && i != k ==>
      c[i].hhNext == At(c, if i == k - 1 then k + 1 else i + 1))
  }

  function Without(q: seq<Handle>, k: nat): seq<Handle>
    requires k < |q|
  {
    q[..k] + q[k + 1..]
  }

  lemma AtWithout(q: seq<Handle>, k: nat, i: int)
    requires k < |q|
    ensures At(Without(q, k), i) == if i < k then At(q, i) else At(q, i + 1)
  {
  }

  lemma ChainedWithout(c: seq<Handle>, k: nat)
    requires k < |c| && ChainedAround(c, k)
    ensures Chained(Without(c, k))
  {
    var d := Without(c, k);
    forall i | 0 <= i < |d| ensures d[i].hhPrev == At(d, i - 1) && d[i].hhNext == At(d, i + 1) {
      AtWithout(c, k, i - 1);
      AtWithout(c, k, i);
      AtWithout(c, k, i + 1);
    }
  }

  method SetHhNext(x: Handle?, v: Handle?, ghost c: seq<Handle>, ghost j: int)
    requires Distinct(c) && x == At(c, j)
    modifies c`hhNext
    ensures forall i {:trigger c[i].hhNext} :: 0 <= i < |c| ==> c[i].hhNext == if i == j then v else old(c[i].hhNext)
  {
    if x != null {
      x.hhNext := v;
    }
  }

  method SetHhPrev(x: Handle?, v: Handle?, ghost c: seq<Handle>, ghost j: int)
    requires Distinct(c) && x == At(c, j)
    modifies c`hhPrev
    ensures forall i {:trigger c[i].hhPrev} :: 0 <= i < |c| ==> c[i].hhPrev == if i == j then v else old(c[i].hhPrev)
  {
    if x != null {
      x.hhPrev := v;
    }
  }

  /** Links the neighbours of h, the k-th of c, to each other. */
  method Unchain(h: Handle, ghost c: seq<Handle>, ghost k: nat)
    requires Chained(c) && Distinct(c) && k < |c| && c[k] == h
    modifies c`hhNext, c`hhPrev
    ensures ChainedAround(c, k)
  {
    var before, after := h.hhPrev, h.hhNext;
    SetHhNext(before, after, c, k - 1);
    SetHhPrev(after, before, c, k + 1);
  }

  /** Takes the element at position k out of the chain c of a bucket. */
  method DeleteInChain(bucket: Bucket, h: Handle, ghost c: seq<Handle>, ghost k: nat, ghost b: nat,
    ghost buckets: nat)
    returns (r: Bucket)
    requires buckets > 0 && BucketOk(bucket, c, b, buckets) && k < |c| && c[k] == h
    modifies c`hhNext, c`hhPrev
    ensures BucketOk(r, Without(c, k), b, buckets) && r.mult == bucket.mult
  {
    r := bucket.(count := bucket.count - 1);
    if r.head == h {
      r := r.(head := h.hhNext);
    }
    Unchain(h, c, k);
    ChainedWithout(c, k);
  }

  /** Walks the chain until it meets the key. */
  method FindInChain(bucket: Bucket, key: string, hashv: nat, ghost c: seq<Handle>, ghost b: nat, ghost buckets: nat)
    returns (r: Handle?)
    requires buckets > 0 && BucketOk(bucket, c, b, buckets)
    ensures r != null ==> r in c && r.hashv == hashv && r.key == key
    ensures r == null ==> forall x :: x in c ==> x.hashv != hashv || x.key != key
  {
    r := bucket.head;
    ghost var i := 0;
    while r != null && !(r.hashv == hashv && r.key == key)
      invariant 0 <= i <= |c| && r == At(c, i)
      invariant forall j :: 0 <= j < i ==> c[j].hashv != hashv || c[j].key != key
      decreases |c| - i
    {
      r := r.hhNext;
      i := i + 1;
    }
  }

  // ---------------------------------------------------------------------
  // All buckets together
  // ---------------------------------------------------------------------

  ghost function Nodes(chains: seq<seq<Handle>>): set<Handle> {
    set b, x | 0 <= b < |chains| && x in chains[b] :: x
  }

  ghost predicate BucketsOk(buckets: seq<Bucket>, chains: seq<seq<Handle>>)
    reads Nodes(chains)`hhPrev, Nodes(chains)`hhNext
  {
    && |chains| == |buckets| && |buckets| > 0
    && forall b :: 0 <= b < |buckets| ==> InNodes(chains, b) && BucketOk(buckets[b], chains[b], b, |buckets|)
  }

  ghost predicate InNodes(chains: seq<seq<Handle>>, b: nat)
    requires b < |chains|
  {
    forall x :: x in chains[b] ==> x in Nodes(chains)
  }

  /** Puts h into its bucket; the other buckets keep their chains. */
  method AddToBuckets(buckets: seq<Bucket>, h: Handle, ghost chains: seq<seq<Handle>>) returns (r: seq<Bucket>, b: nat)
    requires BucketsOk(buckets, chains) && h !in Nodes(chains)
    modifies h`hhNext, h`hhPrev, Nodes(chains)`hhPrev
    ensures |r| == |buckets| && b == BucketOf(h.hashv, |buckets|)
    ensures r == buckets[b := r[b]] && r[b].count == buckets[b].count + 1 && r[b].mult == buckets[b].mult
    ensures BucketsOk(r, chains[b := [h] + chains[b]])
    ensures Nodes(chains[b := [h] + chains[b]]) == Nodes(chains) + {h}
  {
    b := BucketOf(h.hashv, |buckets|);
    ghost var c := chains[b];
    assert InNodes(chains, b);
    var bucket := AddToChain(buckets[b], h, c, b, |buckets|);
    r := buckets[b := bucket];
    ghost var after := chains[b := [h] + c];
    assert Nodes(after) == Nodes(chains) + {h} by {
      forall x | x in Nodes(chains) ensures x in Nodes(after) {
        var a :| 0 <= a < |chains| && x in chains[a];
        assert x in after[a];
      }
      assert h in after[b];
    }
    forall a | 0 <= a < |r| ensures InNodes(after, a) && BucketOk(r[a], after[a], a, |r|) {
      if a != b {
        assert forall x :: x in chains[a] ==> x !in c;
      }
    }
  }

  // ---------------------------------------------------------------------
  // Doubling
  // ---------------------------------------------------------------------

  /** By how much a chain is longer than the ideal. */
  function Over(count: nat, ideal: nat): nat {
    if count > ideal then count - ideal else 0
  }

  /** The elements of the first n buckets that are beyond the ideal length of their chain. */
  function Excess(buckets: seq<Bucket>, n: nat, ideal: nat): nat
    requires n <= |buckets|
  {
    if n == 0 then 0 else Excess(buckets, n - 1, ideal) + Over(buckets[n - 1].count, ideal)
  }

  lemma {:induction false} ExcessUpdate(buckets: seq<Bucket>, b: nat, v: Bucket, n: nat, ideal: nat)
    requires b < |buckets| && n <= |buckets|
    ensures Excess(buckets[b := v], n, ideal) == Excess(buckets, n, ideal)
      + (if b < n then Over(v.count, ideal) - Over(buckets[b].count, ideal) else 0)
  {
    if n > 0 {
      ExcessUpdate(buckets, b, v, n - 1, ideal);
    }
  }

  /** The multiple is positive exactly for a chain longer than the ideal; such a chain is
      longer than one multiple less, and at most one longer than the multiple. */
  predicate MultOk(bucket: Bucket, ideal: nat) {
    && (bucket.mult > 0 <==> bucket.count > ideal)
    && (bucket.mult > 0 ==> (bucket.mult - 1) * ideal < bucket.count)
    && (bucket.count > ideal > 0 ==> bucket.count <= bucket.mult * ideal + 1)
  }

  /** The statistics of an expansion: how many elements are beyond the ideal length, and
      the multiple of each bucket. */
  predicate Tallied(buckets: seq<Bucket>, ideal: nat, nonideal: nat) {
    nonideal == Excess(buckets, |buckets|, ideal) && forall b :: 0 <= b < |buckets| ==> MultOk(buckets[b], ideal)
  }

  lemma {:induction false} NothingOver(buckets: seq<Bucket>, n: nat, ideal: nat)
    requires n <= |buckets| && forall b :: 0 <= b < |buckets| ==> buckets[b].count == 0
    ensures Excess(buckets, n, ideal) == 0
  {
    if n > 0 {
      NothingOver(buckets, n - 1, ideal);
    }
  }

  /** A bucket that has just got one more element. */
  method Assessed(bucket: Bucket, ideal: nat, nonideal: nat) returns (r: Bucket, count: nat)
    ensures r.head == bucket.head && r.count == bucket.count && count == nonideal + if r.count > ideal then 1 else 0
    ensures bucket.count > 0 && MultOk(bucket.(count := bucket.count - 1), ideal) ==> MultOk(r, ideal)
  {
    r, count := bucket, nonideal;
    if bucket.count > ideal {
      count := count + 1;
      if bucket.count > bucket.mult * ideal {
        var mult := bucket.mult + 1;
        r := bucket.(mult := mult);
      }
    }
  }

  lemma TallyOne(buckets: seq<Bucket>, b: nat, v: Bucket, ideal: nat, nonideal: nat, count: nat)
    requires b < |buckets| && v.count == buckets[b].count + 1
    requires count == nonideal + if v.count > ideal then 1 else 0
    requires MultOk(buckets[b], ideal) ==> MultOk(v, ideal)
    ensures Tallied(buckets, ideal, nonideal) ==> Tallied(buckets[b := v], ideal, count)
  {
    ExcessUpdate(buckets, b, v, |buckets|, ideal);
  }

  /** One element moved into the new bucket array, with its statistics. */
  method MoveOne(buckets: seq<Bucket>, h: Handle, ideal: nat, nonideal: nat, ghost chains: seq<seq<Handle>>)
    returns (r: seq<Bucket>, count: nat, ghost moved: seq<seq<Handle>>)
    requires BucketsOk(buckets, chains) && h !in Nodes(chains)
    modifies h`hhNext, h`hhPrev, Nodes(chains)`hhPrev
    ensures |r| == |buckets| && BucketsOk(r, moved) && Nodes(moved) == Nodes(chains) + {h}
    ensures Tallied(buckets, ideal, nonideal) ==> Tallied(r, ideal, count)
  {
    var b;
    r, b := AddToBuckets(buckets, h, chains);
    moved := chains[b := [h] + chains[b]];
    var bucket;
    bucket, count := Assessed(r[b], ideal, nonideal);
    ghost var before := r;
    r := r[b := bucket];
    forall a | 0 <= a < |r| ensures InNodes(moved, a) && BucketOk(r[a], moved[a], a, |r|) {
      assert BucketOk(before[a], moved[a], a, |before|);
    }
    assert r == buckets[b := bucket];
    TallyOne(buckets, b, bucket, ideal, nonideal, count);
  }

  /** The links a traversal of c follows from its j-th element on. */
  ghost predicate ForwardFrom(c: seq<Handle>, j: nat)
    reads c`hhNext
  {
    forall i {:trigger c[i].hhNext} :: j <= i < |c| ==> c[i].hhNext == At(c, i + 1)
  }

  /** The first j elements of c have been moved besides what was there. */
  ghost predicate MovedSoFar(chains: seq<seq<Handle>>, c: seq<Handle>, j: nat, moved: seq<seq<Handle>>) {
    j <= |c| && Nodes(moved) == Nodes(chains) + Elements(c[..j])
  }

  lemma NotMovedYet(chains: seq<seq<Handle>>, c: seq<Handle>, j: nat, moved: seq<seq<Handle>>)
    requires j < |c| && MovedSoFar(chains, c, j, moved) && Distinct(c) && Elements(c) !! Nodes(chains)
    ensures c[j] !in Nodes(moved) && Elements(c[..j + 1]) == Elements(c[..j]) + {c[j]}
  {
    assert c[j] in Elements(c);
    assert c[..j + 1] == c[..j] + [c[j]];
  }

  /** Moves the j-th element of c and gives the one that followed it. */
  method MoveNext(buckets: seq<Bucket>, h: Handle, ideal: nat, nonideal: nat, ghost c: seq<Handle>, ghost j: nat,
    ghost chains: seq<seq<Handle>>, ghost moved: seq<seq<Handle>>)
    returns (r: seq<Bucket>, count: nat, next: Handle?, ghost moved': seq<seq<Handle>>)
    requires BucketsOk(buckets, moved) && ForwardFrom(c, j) && Distinct(c) && Elements(c) !! Nodes(chains)
    requires j < |c| && h == c[j] && MovedSoFar(chains, c, j, moved)
    modifies h`hhNext, h`hhPrev, Nodes(moved)`hhPrev
    ensures |r| == |buckets| && BucketsOk(r, moved')
    ensures Tallied(buckets, ideal, nonideal) ==> Tallied(r, ideal, count)
    ensures next == At(c, j + 1) && ForwardFrom(c, j + 1) && MovedSoFar(chains, c, j + 1, moved')
  {
    next := h.hhNext;
    NotMovedYet(chains, c, j, moved);
    r, count, moved' := MoveOne(buckets, h, ideal, nonideal, moved);
  }

  /** Moves a whole chain, following its links. */
  method MoveChain(buckets: seq<Bucket>, head: Handle?, ideal: nat, nonideal: nat, ghost c: seq<Handle>,
    ghost chains: seq<seq<Handle>>)
    returns (r: seq<Bucket>, count: nat, ghost moved: seq<seq<Handle>>)
    requires BucketsOk(buckets, chains) && ForwardFrom(c, 0) && Distinct(c) && head == At(c, 0)
    requires Elements(c) !! Nodes(chains)
    modifies c`hhNext, c`hhPrev, Nodes(chains)`hhPrev
    ensures |r| == |buckets| && BucketsOk(r, moved) && Nodes(moved) == Nodes(chains) + Elements(c)
    ensures Tallied(buckets, ideal, nonideal) ==> Tallied(r, ideal, count)
  {
    r, count, moved := buckets, nonideal, chains;
    var h := head;
    ghost var j := 0;
    while h != null
      invariant 0 <= j <= |c| && h == At(c, j) && |r| == |buckets| && BucketsOk(r, moved)
      invariant ForwardFrom(c, j) && MovedSoFar(chains, c, j, moved)
      invariant Tallied(buckets, ideal, nonideal) ==> Tallied(r, ideal, count)
      decreases |c| - j
    {
      r, count, h, moved := MoveNext(r, h, ideal, count, c, j, chains, moved);
      j := j + 1;
    }
    assert c[..j] == c;
  }

  /** Every chain holds only elements of its own bucket. */
  ghost predicate Sorted(chains: seq<seq<Handle>>) {
    forall b, i :: 0 <= b < |chains| && 0 <= i < |chains[b]| ==> BucketOf(chains[b][i].hashv, |chains|) == b
  }

  lemma ChainsDisjoint(chains: seq<seq<Handle>>, i: nat, a: nat)
    requires Sorted(chains) && i < |chains| && i <= a < |chains|
    ensures Elements(chains[a]) !! Nodes(chains[..i])
  {
  }

  lemma NodesStep(chains: seq<seq<Handle>>, i: nat)
    requires i < |chains|
    ensures Nodes(chains[..i + 1]) == Nodes(chains[..i]) + Elements(chains[i])
  {
    forall x | x in Nodes(chains[..i]) ensures x in Nodes(chains[..i + 1]) {
      var b :| 0 <= b < |chains[..i]| && x in chains[..i][b];
      assert x in chains[..i + 1][b];
    }
    forall x | x in chains[i] ensures x in Nodes(chains[..i + 1]) {
      assert x in chains[..i + 1][i];
    }
  }

  /** Chain a can still be walked from its bucket. */
  ghost predicate Walkable(bucket: Bucket, c: seq<Handle>)
    reads c`hhNext
  {
    ForwardFrom(c, 0) && Distinct(c) && bucket.head == At(c, 0)
  }

  /** The chains from the i-th on can still be walked. */
  ghost predicate ToMove(buckets: seq<Bucket>, chains: seq<seq<Handle>>, i: nat)
    reads Nodes(chains)`hhNext
  {
    && |chains| == |buckets| && Sorted(chains)
    && forall a :: i <= a < |chains| ==> InNodes(chains, a) && Walkable(buckets[a], chains[a])
  }

  lemma AllToMove(buckets: seq<Bucket>, chains: seq<seq<Handle>>)
    requires BucketsOk(buckets, chains)
    ensures ToMove(buckets, chains, 0)
  {
    forall a | 0 <= a < |chains| ensures InNodes(chains, a) && Walkable(buckets[a], chains[a]) {
      assert BucketOk(buckets[a], chains[a], a, |buckets|);
    }
  }

  lemma ChainsApart(chains: seq<seq<Handle>>, i: nat, a: nat)
    requires Sorted(chains) && i < |chains| && a < |chains| && i != a
    ensures Elements(chains[a]) !! Elements(chains[i])
  {
  }

  /** Moves the chain of bucket i. */
  method MoveBucket(source: seq<Bucket>, i: nat, buckets: seq<Bucket>, ideal: nat, nonideal: nat,
    ghost chains: seq<seq<Handle>>, ghost moved: seq<seq<Handle>>)
    returns (r: seq<Bucket>, count: nat, ghost moved': seq<seq<Handle>>)
    requires ToMove(source, chains, i) && i < |source|
    requires BucketsOk(buckets, moved) && Nodes(moved) == Nodes(chains[..i])
    modifies Nodes(chains[..i + 1])`hhPrev, chains[i]`hhNext
    ensures |r| == |buckets| && BucketsOk(r, moved') && Nodes(moved') == Nodes(chains[..i + 1])
    ensures Tallied(buckets, ideal, nonideal) ==> Tallied(r, ideal, count)
    ensures ToMove(source, chains, i + 1)
  {
    NodesStep(chains, i);
    ChainsDisjoint(chains, i, i);
    forall a | i < a < |chains| ensures Elements(chains[a]) !! Elements(chains[i]) {
      ChainsApart(chains, i, a);
    }
    r, count, moved' := MoveChain(buckets, source[i].head, ideal, nonideal, chains[i], moved);
  }

  /** Doubles the bucket array and redistributes every element. */
  method ExpandBuckets(buckets: seq<Bucket>, ideal: nat, ghost chains: seq<seq<Handle>>)
    returns (r: seq<Bucket>, nonideal: nat, ghost moved: seq<seq<Handle>>)
    requires BucketsOk(buckets, chains)
    modifies Nodes(chains)`hhNext, Nodes(chains)`hhPrev
    ensures |r| == 2 * |buckets| && BucketsOk(r, moved) && Nodes(moved) == Nodes(chains)
    ensures Tallied(r, ideal, nonideal)
  {
    r := seq(2 * |buckets|, i => Bucket(null, 0, 0));
    moved := seq(2 * |buckets|, i => []);
    nonideal := 0;
    NothingOver(r, |r|, ideal);
    AllToMove(buckets, chains);
    var i := 0;
    while i < |buckets|
      invariant 0 <= i <= |buckets| && |r| == 2 * |buckets| && BucketsOk(r, moved)
      invariant Nodes(moved) == Nodes(chains[..i]) && ToMove(buckets, chains, i)
      invariant Tallied(r, ideal, nonideal)
    {
      NodesPrefix(chains, i + 1);
      assert InNodes(chains, i);
      r, nonideal, moved := MoveBucket(buckets, i, r, ideal, nonideal, chains, moved);
      i := i + 1;
    }
    assert chains[..i] == chains;
  }

  lemma NodesPrefix(chains: seq<seq<Handle>>, i: nat)
    requires i <= |chains|
    ensures Nodes(chains[..i]) <= Nodes(chains)
  {
    forall x | x in Nodes(chains[..i]) ensures x in Nodes(chains) {
      var b :| 0 <= b < |chains[..i]| && x in chains[..i][b];
      assert x in chains[b];
    }
  }

  // ---------------------------------------------------------------------
  // The insertion-order list
  // ---------------------------------------------------------------------

  /** Every element but the k-th is listed as if the k-th were not there. */
  ghost predicate ListedAround(q: seq<Handle>, k: nat)
    reads q`prev, q`next
  {
    && (forall i {:trigger q[i].prev} :: 0 <= i < |q| && i != k ==>
      q[i].prev == At(q, if i == k + 1 then k - 1 else i - 1))
    && (forall i {:trigger q[i].next} :: 0 <= i < |q| && i != k ==>
      q[i].next == At(q, if i == k - 1 then k + 1 else i + 1))
  }

  lemma ListedWithout(q: seq<Handle>, k: nat)
    requires k < |q| && ListedAround(q, k)
    ensures Listed(Without(q, k))
  {
    var d := Without(q, k);
    forall i | 0 <= i < |d| ensures d[i].prev == At(d, i - 1) && d[i].next == At(d, i + 1) {
      AtWithout(q, k, i - 1);
      AtWithout(q, k, i);
      AtWithout(q, k, i + 1);
    }
  }

  method SetNext(x: Handle?, v: Handle?, ghost q: seq<Handle>, ghost j: int)
    requires Distinct(q) && x == At(q, j)
    modifies q`next
    ensures forall i {:trigger q[i].next} :: 0 <= i < |q| ==> q[i].next == if i == j then v else old(q[i].next)
  {
    if x != null {
      x.next := v;
    }
  }

  method SetPrev(x: Handle?, v: Handle?, ghost q: seq<Handle>, ghost j: int)
    requires Distinct(q) && x == At(q, j)
    modifies q`prev
    ensures forall i {:trigger q[i].prev} :: 0 <= i < |q| ==> q[i].prev == if i == j then v else old(q[i].prev)
  {
    if x != null {
      x.prev := v;
    }
  }

  method Unlist(h: Handle, ghost q: seq<Handle>, ghost k: nat)
    requires Listed(q) && Distinct(q) && k < |q| && q[k] == h
    modifies q`next, q`prev
    ensures ListedAround(q, k)
  {
    var before, after := h.prev, h.next;
    SetNext(before, after, q, k - 1);
    SetPrev(after, before, q, k + 1);
  }

  /** Appends h behind the tail. */
  method AppendList(tail: Handle?, h: Handle, ghost q: seq<Handle>)
    requires Listed(q) && Distinct(q) && h !in q && tail == At(q, |q| - 1)
    modifies h`next, h`prev, q`next
    ensures Listed(q + [h])
  {
    h.next := null;
    h.prev := tail;
    SetNext(tail, h, q, |q| - 1);
  }

  // ---------------------------------------------------------------------
  // The table
  // ---------------------------------------------------------------------

  /** The length no chain exceeds when the elements are spread evenly. */
  function IdealLength(items: nat, buckets: nat): nat
    requires buckets > 0
  {
    items / buckets + if items % buckets != 0 then 1 else 0
  }

  /** i is the least length with which so many buckets can hold all the items. */
  predicate IsCeiling(i: nat, items: nat, buckets: nat) {
    items <= i * buckets && (i > 0 ==> (i - 1) * buckets < items)
  }

  lemma IdealIsCeiling(items: nat, buckets: nat)
    requires buckets > 0
    ensures IsCeiling(IdealLength(items, buckets), items, buckets)
  {
    var q := items / buckets;
    assert items == q * buckets + items % buckets;
    assert (q + 1) * buckets == q * buckets + buckets;
    assert (q - 1) * buckets == q * buckets - buckets;
  }

  class Table {
    const hash: string -> nat
    var head: Handle?
    var tail: Handle?
    var buckets: seq<Bucket>
    var log2: nat
    var numItems: nat
    var idealMaxlen: nat
    var nonideal: nat
    var ineffExpands: nat
    var noexpand: bool
    ghost var app: seq<Handle>
    ghost var chains: seq<seq<Handle>>

    constructor (hash: string -> nat)
      ensures Valid() && app == [] && this.hash == hash
    {
      this.hash := hash;
      head, tail, buckets, log2, numItems := null, null, [], 0, 0;
      idealMaxlen, nonideal, ineffExpands, noexpand := 0, 0, 0, false;
      app, chains := [], [];
    }

    /** HASH_FSCK: both lists are linked both ways, the chains hold exactly the
        listed elements, each in its own bucket, and every count is right. */
    ghost predicate Valid()
      reads this, app
    {
      AppOk() && (app != [] ==> TableOk())
    }

    ghost predicate AppOk()
      reads this`head, this`tail, this`app, app`prev, app`next
    {
      && head == At(app, 0) && tail == At(app, |app| - 1)
      && Listed(app) && DistinctKeys(app)
      && (forall i :: 0 <= i < |app| ==> app[i].hashv == hash(app[i].key))
    }

    ghost predicate TableOk()
      reads this`buckets, this`log2, this`numItems, this`app, this`chains, app`hhPrev, app`hhNext
    {
      TableFor(app)
    }

    /** The buckets hold exactly the elements of q. */
    ghost predicate TableFor(q: seq<Handle>)
      reads this`buckets, this`log2, this`numItems, this`chains, q`hhPrev, q`hhNext
    {
      && numItems == |q| && |buckets| == Pow2(log2)
      && Nodes(chains) == Elements(q) && BucketsOk(buckets, chains)
    }

    /** The map the table stands for. */
    ghost function Contents(): map<string, Handle>
      reads this`app
      requires DistinctKeys(app)
    {
      ContentsOf(app)
    }

    method Find(key: string) returns (r: Handle?)
      requires Valid()
      ensures r == if key in Contents() then Contents()[key] else null
    {
      if head == null {
        return null;
      }
      var hashv := hash(key);
      var b := BucketOf(hashv, |buckets|);
      assert InNodes(chains, b);
      r := FindInChain(buckets[b], key, hashv, chains[b], b, |buckets|);
      if r != null {
        assert r in app;
      } else {
        forall x | x in app ensures x.key != key {
          assert x in Nodes(chains);
          var a :| 0 <= a < |chains| && x in chains[a];
          assert BucketOk(buckets[a], chains[a], a, |buckets|);
        }
      }
    }

    /** HASH_MAKE_TABLE. */
    method MakeTable()
      modifies this`buckets, this`log2, this`numItems, this`idealMaxlen, this`nonideal, this`ineffExpands
      modifies this`noexpand, this`chains
      ensures |buckets| == Pow2(log2) && log2 == INITIAL_LOG2 && numItems == 0
      ensures BucketsOk(buckets, chains) && Nodes(chains) == {}
    {
      log2 := INITIAL_LOG2;
      buckets := seq(Pow2(INITIAL_LOG2), i => Bucket(null, 0, 0));
      chains := seq(Pow2(INITIAL_LOG2), i => []);
      numItems, idealMaxlen, nonideal, ineffExpands, noexpand := 0, 0, 0, 0, false;
    }

    /** HASH_EXPAND_BUCKETS. */
    method Expand()
      requires |buckets| == Pow2(log2) && BucketsOk(buckets, chains)
      modifies this`buckets, this`log2, this`idealMaxlen, this`nonideal, this`ineffExpands, this`noexpand, this`chains
      modifies Nodes(chains)`hhNext, Nodes(chains)`hhPrev
      ensures |buckets| == Pow2(log2) && log2 == old(log2) + 1 && BucketsOk(buckets, chains)
      ensures Nodes(chains) == old(Nodes(chains))
      ensures IsCeiling(idealMaxlen, numItems, |buckets|)
      ensures Tallied(buckets, idealMaxlen, nonideal)
      ensures ineffExpands == if nonideal > numItems / 2 then old(ineffExpands) + 1 else 0
      ensures noexpand == (old(noexpand) || ineffExpands > 1)
    {
      IdealIsCeiling(numItems, 2 * |buckets|);
      idealMaxlen := IdealLength(numItems, 2 * |buckets|);
      buckets, nonideal, chains := ExpandBuckets(buckets, idealMaxlen, chains);
      log2 := log2 + 1;
      Assess();
    }

    /** Doubling is given up after two expansions in a row that did not help. */
    method Assess()
      modifies this`ineffExpands, this`noexpand
      ensures ineffExpands == if nonideal > numItems / 2 then old(ineffExpands) + 1 else 0
      ensures noexpand == (old(noexpand) || ineffExpands > 1)
    {
      ineffExpands := if nonideal > numItems / 2 then ineffExpands + 1 else 0;
      if ineffExpands > 1 {
        noexpand := true;
      }
    }

    /** HASH_APPEND_LIST, or the first element of a new list. */
    method Append(h: Handle)
      requires AppOk() && h !in app && h.hashv == hash(h.key) && forall i :: 0 <= i < |app| ==> app[i].key != h.key
      modifies this`head, this`tail, this`app, h`next, h`prev, app`next
      ensures AppOk() && app == old(app) + [h]
    {
      AppendList(tail, h, app);
      if head == null {
        head := h;
      }
      tail := h;
      app := app + [h];
    }

    /** HASH_ADD_TO_TABLE: h has just been appended to the list. */
    method AddToTable(h: Handle, ghost before: seq<Handle>)
      requires app == before + [h] && h !in before && TableFor(before)
      modifies this`buckets, this`log2, this`numItems, this`idealMaxlen, this`nonideal, this`ineffExpands
      modifies this`noexpand, this`chains
      modifies app`hhNext, app`hhPrev
      ensures TableOk()
    {
      assert Elements(app) == Elements(before) + {h};
      numItems := numItems + 1;
      var b;
      buckets, b := AddToBuckets(buckets, h, chains);
      chains := chains[b := [h] + chains[b]];
      ExpandIfLong(b);
    }

    /** The array doubles exactly when the chain that grew has ten elements for each multiple
        and one, and doubling was not given up. */
    method ExpandIfLong(b: nat)
      requires TableOk() && b < |buckets|
      modifies this`buckets, this`log2, this`idealMaxlen, this`nonideal, this`ineffExpands, this`noexpand, this`chains
      modifies app`hhNext, app`hhPrev
      ensures TableOk()
      ensures log2 == old(log2) +
        if !old(noexpand) && old(buckets[b].count) >= 10 * (old(buckets[b].mult) + 1) then 1 else 0
      ensures log2 == old(log2) ==> buckets == old(buckets)
    {
      if buckets[b].count >= (buckets[b].mult + 1) * CAPACITY_THRESH && !noexpand {
        Expand();
      }
    }

    method EnsureTable()
      requires Valid()
      modifies this`buckets, this`log2, this`numItems, this`idealMaxlen, this`nonideal, this`ineffExpands
      modifies this`noexpand, this`chains
      ensures AppOk() && TableFor(app)
    {
      if head == null {
        MakeTable();
      }
    }

    /** HASH_ADD_KEYPTR, for a key not in the table. */
    method Add(h: Handle)
      requires Valid() && h !in app && h.key !in Contents() && h.hashv == hash(h.key)
      modifies this, h, app
      ensures Valid() && app == old(app) + [h]
      ensures Contents() == old(Contents())[h.key := h]
    {
      ghost var before := app;
      KeyFresh(before, h.key);
      Link(h);
      ContentsAppend(before, h);
    }

    /** The element joins the list and its bucket. */
    method Link(h: Handle)
      requires Valid() && h !in app && h.hashv == hash(h.key) && forall i :: 0 <= i < |app| ==> app[i].key != h.key
      modifies this, h, app
      ensures Valid() && app == old(app) + [h]
    {
      ghost var before := app;
      EnsureTable();
      LinkInto(h, before);
    }

    /** The list first, which leaves the buckets alone, then the buckets, which leaves
        the list alone. */
    method LinkInto(h: Handle, ghost before: seq<Handle>)
      requires AppOk() && TableFor(before) && app == before && h !in app
      requires h.hashv == hash(h.key) && forall i :: 0 <= i < |app| ==> app[i].key != h.key
      modifies this, h, app
      ensures AppOk() && TableFor(app) && app == before + [h]
    {
      Append(h);
      assert TableFor(before);
      AddToTable(h, before);
      assert AppOk();
    }

    /** HASH_DELETE_HH. */
    method Delete(h: Handle)
      requires Valid() && h in app
      modifies this, app
      ensures Valid() && exists k: nat :: k < |old(app)| && old(app)[k] == h && app == Without(old(app), k)
      ensures Contents() == old(Contents()) - {h.key}
    {
      ghost var k: nat :| k < |app| && app[k] == h;
      if h.prev == null && h.next == null {
        Clear(h, k);
      } else {
        DeleteOne(h, k);
      }
    }

    /** The last element goes: the table is freed. */
    method Clear(h: Handle, ghost k: nat)
      requires Valid() && k < |app| && app[k] == h && h.prev == null && h.next == null
      modifies this
      ensures Valid() && app == Without(old(app), k) && Contents() == old(Contents()) - {h.key}
    {
      ContentsWithout(app, k);
      head, tail := null, null;
      app := Without(app, k);
    }

    method DeleteOne(h: Handle, ghost k: nat)
      requires Valid() && k < |app| && app[k] == h && |app| > 1
      modifies this, app
      ensures Valid() && app == Without(old(app), k) && Contents() == old(Contents()) - {h.key}
    {
      ContentsWithout(app, k);
      Unlink(h, k);
    }

    /** The element leaves its bucket and the list. */
    method Unlink(h: Handle, ghost k: nat)
      requires AppOk() && TableOk() && k < |app| && app[k] == h && |app| > 1
      modifies this, app
      ensures AppOk() && TableOk() && app == Without(old(app), k)
    {
      ghost var q := app;
      RemoveFromTable(h, k);
      assert AppOk();
      RemoveFromList(h, k);
      assert TableFor(Without(q, k));
    }

    /** The element leaves the insertion-order list. */
    method RemoveFromList(h: Handle, ghost k: nat)
      requires AppOk() && k < |app| && app[k] == h && |app| > 1
      modifies this`head, this`tail, this`app, app`next, app`prev
      ensures AppOk() && app == Without(old(app), k)
    {
      ghost var q := app;
      DistinctByKeys(q);
      KeysWithout(q, k);
      HashedWithout(q, k, hash);
      EndsWithout(q, k);
      if h == tail {
        tail := h.prev;
      }
      if h.prev == null {
        head := h.next;
      }
      Unlist(h, q, k);
      ListedWithout(q, k);
      app := Without(q, k);
    }

    /** The element leaves its bucket. */
    method RemoveFromTable(h: Handle, ghost k: nat)
      requires TableOk() && DistinctKeys(app) && k < |app| && app[k] == h
      modifies this`buckets, this`numItems, this`chains, app`hhNext, app`hhPrev
      ensures TableFor(Without(app, k))
    {
      var b := BucketOf(h.hashv, |buckets|);
      assert h in Elements(app);
      ghost var a :| 0 <= a < |chains| && h in chains[a];
      assert BucketOk(buckets[a], chains[a], a, |buckets|);
      ghost var j: nat :| j < |chains[b]| && chains[b][j] == h;
      buckets, chains := RemoveFromBuckets(buckets, h, chains, b, j);
      numItems := numItems - 1;
      DistinctByKeys(app);
      ElementsWithout(app, k);
    }
  }

  lemma EndsWithout(q: seq<Handle>, k: nat)
    requires Distinct(q) && k < |q| && |q| > 1
    ensures At(Without(q, k), 0) == (if k == 0 then At(q, 1) else At(q, 0))
    ensures At(Without(q, k), |q| - 2) == (if q[k] == At(q, |q| - 1) then At(q, k - 1) else At(q, |q| - 1))
  {
  }

  lemma KeyFresh(q: seq<Handle>, key: string)
    requires DistinctKeys(q) && key !in ContentsOf(q)
    ensures forall i :: 0 <= i < |q| ==> q[i].key != key
  {
    forall i | 0 <= i < |q| ensures q[i].key != key {
      assert q[i].key in ContentsOf(q);
    }
  }

  lemma DistinctByKeys(q: seq<Handle>)
    requires DistinctKeys(q)
    ensures Distinct(q)
  {
  }

  lemma ElementsWithout(q: seq<Handle>, k: nat)
    requires Distinct(q) && k < |q|
    ensures Elements(Without(q, k)) == Elements(q) - {q[k]}
  {
    assert q == q[..k] + [q[k]] + q[k + 1..];
  }

  ghost function ContentsOf(q: seq<Handle>): map<string, Handle>
    requires DistinctKeys(q)
  {
    map i | 0 <= i < |q| :: q[i].key := q[i]
  }

  lemma ContentsAppend(q: seq<Handle>, h: Handle)
    requires DistinctKeys(q + [h])
    ensures DistinctKeys(q) && ContentsOf(q + [h]) == ContentsOf(q)[h.key := h]
  {
    var r := q + [h];
    assert forall i :: 0 <= i < |q| ==> r[i] == q[i];
    assert r[|q|] == h;
  }

  lemma KeysWithout(q: seq<Handle>, k: nat)
    requires DistinctKeys(q) && k < |q|
    ensures DistinctKeys(Without(q, k))
  {
    var r := Without(q, k);
    forall i, j | 0 <= i < j < |r| ensures r[i].key != r[j].key {
      assert r[i] == q[if i < k then i else i + 1] && r[j] == q[if j < k then j else j + 1];
    }
  }

  lemma HashedWithout(q: seq<Handle>, k: nat, hash: string -> nat)
    requires k < |q| && forall i :: 0 <= i < |q| ==> q[i].hashv == hash(q[i].key)
    ensures forall i :: 0 <= i < |Without(q, k)| ==> Without(q, k)[i].hashv == hash(Without(q, k)[i].key)
  {
  }

  lemma ContentsAt(q: seq<Handle>, i: nat)
    requires DistinctKeys(q) && i < |q|
    ensures q[i].key in ContentsOf(q) && ContentsOf(q)[q[i].key] == q[i]
  {
  }

  /** Where an element of the shortened list stood. */
  lemma WithoutAt(q: seq<Handle>, k: nat, i: nat) returns (j: nat)
    requires k < |q| && i < |Without(q, k)|
    ensures j < |q| && j != k && Without(q, k)[i] == q[j]
  {
    j := if i < k then i else i + 1;
  }

  lemma WithoutFrom(q: seq<Handle>, k: nat, j: nat) returns (i: nat)
    requires k < |q| && j < |q| && j != k
    ensures i < |Without(q, k)| && Without(q, k)[i] == q[j]
  {
    i := if j < k then j else j - 1;
  }

  lemma ContentsKept(q: seq<Handle>, k: nat, key: string)
    requires DistinctKeys(q) && k < |q| && DistinctKeys(Without(q, k)) && key in ContentsOf(Without(q, k))
    ensures key != q[k].key && key in ContentsOf(q) && ContentsOf(q)[key] == ContentsOf(Without(q, k))[key]
  {
    var r := Without(q, k);
    var i: nat :| i < |r| && r[i].key == key;
    var j := WithoutAt(q, k, i);
    ContentsAt(q, j);
    ContentsAt(r, i);
  }

  lemma ContentsWithout(q: seq<Handle>, k: nat)
    requires DistinctKeys(q) && k < |q|
    ensures DistinctKeys(Without(q, k)) && ContentsOf(Without(q, k)) == ContentsOf(q) - {q[k].key}
  {
    KeysWithout(q, k);
    var m, n := ContentsOf(Without(q, k)), ContentsOf(q) - {q[k].key};
    forall key | key in m ensures key in n && m[key] == n[key] {
      ContentsKept(q, k, key);
    }
    forall key | key in n ensures key in m {
      var j: nat :| j < |q| && q[j].key == key;
      var i := WithoutFrom(q, k, j);
      ContentsAt(Without(q, k), i);
    }
  }

  /** Takes h out of its bucket; the other buckets keep their chains. */
  method RemoveFromBuckets(buckets: seq<Bucket>, h: Handle, ghost chains: seq<seq<Handle>>, b: nat, ghost j: nat)
    returns (r: seq<Bucket>, ghost after: seq<seq<Handle>>)
    requires BucketsOk(buckets, chains) && b < |buckets| && j < |chains[b]| && chains[b][j] == h
    modifies Nodes(chains)`hhNext, Nodes(chains)`hhPrev
    ensures |r| == |buckets| && BucketsOk(r, after) && Nodes(after) == Nodes(chains) - {h}
  {
    ghost var c := chains[b];
    assert InNodes(chains, b);
    var bucket := DeleteInChain(buckets[b], h, c, j, b, |buckets|);
    r := buckets[b := bucket];
    after := chains[b := Without(c, j)];
    NodesWithout(chains, b, j);
    forall a | 0 <= a < |r| ensures InNodes(after, a) && BucketOk(r[a], after[a], a, |r|) {
      if a != b {
        assert forall x :: x in chains[a] ==> x !in c;
      }
    }
  }

  lemma NodesWithout(chains: seq<seq<Handle>>, b: nat, j: nat)
    requires Sorted(chains) && b < |chains| && j < |chains[b]| && Distinct(chains[b])
    ensures Nodes(chains[b := Without(chains[b], j)]) == Nodes(chains) - {chains[b][j]}
  {
    var h := chains[b][j];
    var after := chains[b := Without(chains[b], j)];
    ElementsWithout(chains[b], j);
    forall x | x in Nodes(after) ensures x in Nodes(chains) && x != h {
      var a :| 0 <= a < |after| && x in after[a];
      if a == b {
        assert x in Elements(Without(chains[b], j));
      } else {
        var i :| 0 <= i < |chains[a]| && chains[a][i] == x;
      }
    }
    forall x | x in Nodes(chains) && x != h ensures x in Nodes(after) {
      var a :| 0 <= a < |chains| && x in chains[a];
      if a == b {
        assert x in Elements(Without(chains[b], j));
      }
      assert x in after[a];
    }
  }
}
