/** Finite directed graphs, reachability along edges and acyclicity. The build
    scheduler, the dependency tree and the orphan search all recurse over such
    graphs; `Rank` is the measure that makes those recursions end. */
module Graph {

  type Digraph<T(==)> = map<T, set<T>>

  /** Every edge leads to a node of the graph. */
  ghost predicate Closed<T>(g: Digraph<T>) {
    forall x, y :: x in g && y in g[x] ==> y in g
  }

  /** p is a nonempty walk along edges of g. */
  ghost predicate IsWalk<T>(g: Digraph<T>, p: seq<T>) {
    && |p| > 0
    && forall i :: 0 <= i < |p| - 1 ==> p[i] in g && p[i + 1] in g[p[i]]
  }

  /** y can be reached from x in zero or more steps. */
  ghost predicate Reaches<T(!new)>(g: Digraph<T>, x: T, y: T) {
    exists p :: IsWalk(g, p) && p[0] == x && p[|p| - 1] == y
  }

  /** No node lies on a cycle. */
  ghost predicate Acyclic<T(!new)>(g: Digraph<T>) {
    forall x, y :: x in g && y in g[x] ==> !Reaches(g, y, x)
  }

  ghost function ReachSet<T(!new)>(g: Digraph<T>, x: T): set<T> {
    set y | y in g && Reaches(g, x, y)
  }

  /** The number of nodes reachable from x. */
  ghost function Rank<T(!new)>(g: Digraph<T>, x: T): nat {
    |ReachSet(g, x)|
  }

  lemma ReachesSelf<T(!new)>(g: Digraph<T>, x: T)
    ensures Reaches(g, x, x)
  {
    assert IsWalk(g, [x]);
  }

  lemma ReachesEdge<T(!new)>(g: Digraph<T>, x: T, y: T, z: T)
    requires x in g && y in g[x] && Reaches(g, y, z)
    ensures Reaches(g, x, z)
  {
    var p :| IsWalk(g, p) && p[0] == y && p[|p| - 1] == z;
    var q := [x] + p;
    forall i | 0 <= i < |q| - 1 ensures q[i] in g && q[i + 1] in g[q[i]] {
      if i > 0 {
        assert q[i] == p[i - 1] && q[i + 1] == p[i - 1 + 1];
      }
    }
    assert IsWalk(g, q);
  }

  lemma ReachesTrans<T(!new)>(g: Digraph<T>, x: T, y: T, z: T)
    requires Reaches(g, x, y) && Reaches(g, y, z)
    ensures Reaches(g, x, z)
  {
    var p :| IsWalk(g, p) && p[0] == x && p[|p| - 1] == y;
    ReachesAppend(g, p, z);
  }

  lemma {:induction false} ReachesAppend<T(!new)>(g: Digraph<T>, p: seq<T>, z: T)
    requires IsWalk(g, p) && Reaches(g, p[|p| - 1], z)
    ensures Reaches(g, p[0], z)
    decreases |p|
  {
    if |p| > 1 {
      var q := p[1..];
      forall i | 0 <= i < |q| - 1 ensures q[i] in g && q[i + 1] in g[q[i]] {
        assert q[i] == p[i + 1] && q[i + 1] == p[i + 1 + 1];
      }
      ReachesAppend(g, q, z);
      assert p[0 + 1] in g[p[0]];
      ReachesEdge(g, p[0], p[1], z);
    }
  }

  /** One more edge at the end. */
  lemma ReachesStep<T(!new)>(g: Digraph<T>, x: T, y: T, z: T)
    requires Reaches(g, x, y) && y in g && z in g[y]
    ensures Reaches(g, x, z)
  {
    ReachesSelf(g, z);
    ReachesEdge(g, y, z, z);
    ReachesTrans(g, x, y, z);
  }

  /** A node that reaches another reaches it through one of its successors. */
  lemma ReachesFirst<T(!new)>(g: Digraph<T>, x: T, z: T) returns (y: T)
    requires Reaches(g, x, z) && x != z
    ensures x in g && y in g[x] && Reaches(g, y, z)
  {
    var p :| IsWalk(g, p) && p[0] == x && p[|p| - 1] == z;
    y := p[0 + 1];
    var q := p[1..];
    forall i | 0 <= i < |q| - 1 ensures q[i] in g && q[i + 1] in g[q[i]] {
      assert q[i] == p[i + 1] && q[i + 1] == p[i + 1 + 1];
    }
    assert IsWalk(g, q);
  }

  /** ... and through one of the predecessors of the node reached. */
  lemma ReachesLast<T(!new)>(g: Digraph<T>, x: T, z: T) returns (y: T)
    requires Reaches(g, x, z) && x != z
    ensures Reaches(g, x, y) && y in g && z in g[y]
  {
    var p :| IsWalk(g, p) && p[0] == x && p[|p| - 1] == z;
    y := p[|p| - 2];
    assert p[|p| - 2 + 1] in g[p[|p| - 2]];
    var q := p[..|p| - 1];
    assert IsWalk(g, q);
  }

  lemma SubsetCard<T>(a: set<T>, b: set<T>)
    requires a <= b
    ensures |a| <= |b|
    ensures a != b ==> |a| < |b|
  {
    assert |b - a| == |b| - |a|;
    if a != b {
      var x :| x in b && x !in a;
      assert x in b - a;
    }
  }

  /** In an acyclic graph the rank strictly falls along every edge. */
  lemma RankFalls<T(!new)>(g: Digraph<T>, x: T, y: T)
    requires Closed(g) && Acyclic(g) && x in g && y in g[x]
    ensures Rank(g, y) < Rank(g, x)
  {
    forall z | z in ReachSet(g, y) ensures z in ReachSet(g, x) {
      ReachesEdge(g, x, y, z);
    }
    ReachesSelf(g, x);
    assert x in ReachSet(g, x) && x !in ReachSet(g, y);
    SubsetCard(ReachSet(g, y), ReachSet(g, x));
  }

  lemma RankBound<T(!new)>(g: Digraph<T>, x: T)
    ensures Rank(g, x) <= |g.Keys|
  {
    assert ReachSet(g, x) <= g.Keys;
    SubsetCard(ReachSet(g, x), g.Keys);
  }
}
