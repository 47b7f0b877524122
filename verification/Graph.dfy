/** Reachability over a finite directed graph of hashed objects.

    An object store is seen here only through its edges: every hash that is
    present maps to the hashes its object refers to.  A hash that is not a key
    of the map is missing from the store. */
module Graph {

  type Hash = nat

  /** The hash of no object. */
  const ZERO_HASH: Hash := 0

  type Edges = map<Hash, seq<Hash>>

  /** A non-empty walk along edges of `g`. */
  ghost predicate IsPath(g: Edges, p: seq<Hash>) {
    && |p| > 0
    && forall i :: 0 <= i < |p| - 1 ==> Edge(g, p[i], p[i + 1])
  }

  ghost predicate Edge(g: Edges, a: Hash, b: Hash) {
    a in g && b in g[a]
  }

  ghost predicate PathFromTo(g: Edges, p: seq<Hash>, a: Hash, b: Hash) {
    IsPath(g, p) && p[0] == a && p[|p| - 1] == b
  }

  /** `b` is `a` itself or one of its ancestors. */
  ghost predicate Reaches(g: Edges, a: Hash, b: Hash) {
    exists p :: PathFromTo(g, p, a, b)
  }

  /** No edge lies on a cycle. */
  ghost predicate Acyclic(g: Edges) {
    forall a, b :: Edge(g, a, b) ==> !Reaches(g, b, a)
  }

  /** Everything reachable from `a` is present. */
  ghost predicate CompleteFrom(g: Edges, a: Hash) {
    forall b :: Reaches(g, a, b) ==> b in g
  }

  ghost predicate ClosedUnder(g: Edges, s: set<Hash>) {
    forall a, b :: a in s && Edge(g, a, b) ==> b in s
  }

  lemma ReachesSelf(g: Edges, a: Hash)
    ensures Reaches(g, a, a)
  {
    assert PathFromTo(g, [a], a, a);
  }

  lemma ReachesEdge(g: Edges, a: Hash, b: Hash)
    requires Edge(g, a, b)
    ensures Reaches(g, a, b)
  {
    assert PathFromTo(g, [a, b], a, b);
  }

  lemma ReachesTrans(g: Edges, a: Hash, b: Hash, c: Hash)
    requires Reaches(g, a, b) && Reaches(g, b, c)
    ensures Reaches(g, a, c)
  {
    var p :| PathFromTo(g, p, a, b);
    var q :| PathFromTo(g, q, b, c);
    var r := p + q[1..];
    forall i | 0 <= i < |r| - 1
      ensures Edge(g, r[i], r[i + 1])
    {
      if i >= |p| - 1 {
        assert r[i] == q[i - |p| + 1] && r[i + 1] == q[i - |p| + 2];
      }
    }
    assert PathFromTo(g, r, a, c);
  }

  /** A proper ancestor is reached through the first edge of some walk. */
  lemma FirstEdge(g: Edges, a: Hash, b: Hash) returns (m: Hash)
    requires Reaches(g, a, b) && a != b
    ensures Edge(g, a, m) && Reaches(g, m, b)
  {
    var p :| PathFromTo(g, p, a, b);
    m := p[1];
    assert Edge(g, p[0], p[1]);
    assert PathFromTo(g, p[1..], m, b) by {
      forall i | 0 <= i < |p[1..]| - 1
        ensures Edge(g, p[1..][i], p[1..][i + 1])
      {
        assert Edge(g, p[i + 1], p[i + 2]);
      }
    }
  }

  /** Over an acyclic graph reachability is a partial order. */
  lemma Antisymmetric(g: Edges)
    requires Acyclic(g)
    ensures forall a, b :: Reaches(g, a, b) && Reaches(g, b, a) ==> a == b
  {
    forall a, b | Reaches(g, a, b) && Reaches(g, b, a)
      ensures a == b
    {
      if a != b {
        var m := FirstEdge(g, a, b);
        ReachesTrans(g, m, b, a);
      }
    }
  }

  /** The number of present nodes that `a` reaches: a topological rank of an acyclic graph. */
  ghost function Rank(g: Edges, a: Hash): nat {
    |set x | x in g.Keys && Reaches(g, a, x)|
  }

  lemma RankDecreases(g: Edges, a: Hash, b: Hash)
    requires Acyclic(g) && Edge(g, a, b)
    ensures Rank(g, b) < Rank(g, a)
  {
    var below := set x | x in g.Keys && Reaches(g, b, x);
    var all := set x | x in g.Keys && Reaches(g, a, x);
    ReachesEdge(g, a, b);
    forall x | x in below ensures x in all {
      ReachesTrans(g, a, b, x);
    }
    ReachesSelf(g, a);
    assert a in all - below;
    SmallerSet(below, all);
  }

  lemma RankPositive(g: Edges, a: Hash)
    requires a in g
    ensures Rank(g, a) > 0
  {
    ReachesSelf(g, a);
    var all := set x | x in g.Keys && Reaches(g, a, x);
    assert a in all;
    SmallerSet({}, all);
  }

  lemma SmallerSet(s: set<Hash>, t: set<Hash>)
    requires s < t
    ensures |s| < |t|
  {
    assert t == s + (t - s);
  }

  /** A set that holds `a` and every successor of its members holds all that `a` reaches. */
  lemma {:induction false} ClosedContains(g: Edges, s: set<Hash>, p: seq<Hash>, k: nat)
    requires ClosedUnder(g, s)
    requires IsPath(g, p) && p[0] in s
    requires k < |p|
    ensures p[k] in s
  {
    if k > 0 {
      ClosedContains(g, s, p, k - 1);
      assert Edge(g, p[k - 1], p[k]);
    }
  }

  lemma ClosedReaches(g: Edges, s: set<Hash>, a: Hash, b: Hash)
    requires ClosedUnder(g, s) && a in s && Reaches(g, a, b)
    ensures b in s
  {
    var p :| PathFromTo(g, p, a, b);
    ClosedContains(g, s, p, |p| - 1);
  }

  /** Reachability along walks that stop at the first member of `limit`: every
      node of the walk except the last one lies outside `limit`. */
  ghost predicate Avoids(p: seq<Hash>, limit: set<Hash>) {
    forall i :: 0 <= i < |p| - 1 ==> p[i] !in limit
  }

  ghost predicate ReachesUpTo(g: Edges, a: Hash, b: Hash, limit: set<Hash>) {
    exists p :: PathFromTo(g, p, a, b) && Avoids(p, limit)
  }

  lemma UpToSelf(g: Edges, a: Hash, limit: set<Hash>)
    ensures ReachesUpTo(g, a, a, limit)
  {
    assert PathFromTo(g, [a], a, a) && Avoids([a], limit);
  }

  lemma UpToExtend(g: Edges, a: Hash, b: Hash, c: Hash, limit: set<Hash>)
    requires ReachesUpTo(g, a, b, limit) && b !in limit && Edge(g, b, c)
    ensures ReachesUpTo(g, a, c, limit)
  {
    var p :| PathFromTo(g, p, a, b) && Avoids(p, limit);
    assert PathFromTo(g, p + [c], a, c) && Avoids(p + [c], limit);
  }

  lemma UpToReaches(g: Edges, a: Hash, b: Hash, limit: set<Hash>)
    requires ReachesUpTo(g, a, b, limit)
    ensures Reaches(g, a, b)
  {
    var p :| PathFromTo(g, p, a, b) && Avoids(p, limit);
  }

  lemma NoLimit(g: Edges, a: Hash, b: Hash)
    ensures ReachesUpTo(g, a, b, {}) <==> Reaches(g, a, b)
  {
    if Reaches(g, a, b) {
      var p :| PathFromTo(g, p, a, b);
      assert Avoids(p, {});
    }
  }

  /** A walk from `a` to `b` either avoids `limit` all the way or enters it at
      some node that is itself reached by an avoiding walk. */
  lemma EntersLimit(g: Edges, a: Hash, b: Hash, limit: set<Hash>) returns (m: Hash)
    requires Reaches(g, a, b)
    ensures ReachesUpTo(g, a, m, limit) && Reaches(g, m, b)
    ensures m == b || m in limit
  {
    var p :| PathFromTo(g, p, a, b);
    var k := 0;
    while k < |p| - 1 && p[k] !in limit
      invariant 0 <= k < |p|
      invariant forall i :: 0 <= i < k ==> p[i] !in limit
    {
      k := k + 1;
    }
    m := p[k];
    assert PathFromTo(g, p[..k + 1], a, m) && Avoids(p[..k + 1], limit);
    assert PathFromTo(g, p[k..], m, b) by {
      forall i | 0 <= i < |p[k..]| - 1
        ensures Edge(g, p[k..][i], p[k..][i + 1])
      {
        assert Edge(g, p[k + i], p[k + i + 1]);
      }
    }
  }
}
