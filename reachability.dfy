/** Directed graphs over operation ids and reachability along their edges: the
    part of a circuit graph that `has_path` and the ancestor query consult. */
module Reachability {

  /** An operation or observable of a circuit, identified by an integer id. */
  type Op = int

  /** A circuit graph: its nodes in queue order and its directed edges. */
  datatype Digraph = Digraph(nodes: seq<Op>, edges: set<(Op, Op)>)

  /** `p` is a walk along `edges`: at least one node, and every two
      consecutive nodes are joined by an edge. */
  ghost predicate IsWalk(edges: set<(Op, Op)>, p: seq<Op>)
  {
    |p| >= 1 && forall i :: 0 <= i < |p| - 1 ==> (p[i], p[i + 1]) in edges
  }

  /** Some walk along `edges` starts at `a` and ends at `b`. */
  ghost predicate WalkBetween(edges: set<(Op, Op)>, a: Op, b: Op)
  {
    exists p :: IsWalk(edges, p) && p[0] == a && p[|p| - 1] == b
  }

  /** `b` can be reached from `a` in at most `k` steps. */
  function ReachWithin(edges: set<(Op, Op)>, a: Op, b: Op, k: nat): bool
    decreases k
  {
    a == b || (k > 0 && exists e | e in edges && e.0 == a :: ReachWithin(edges, e.1, b, k - 1))
  }

  /** `b` can be reached from `a`; a walk never needs more steps than there are edges. */
  function Reaches(edges: set<(Op, Op)>, a: Op, b: Op): bool
  {
    ReachWithin(edges, a, b, |edges|)
  }

  /** The ancestors of `op`: the other nodes from which `op` can be reached. */
  function Ancestors(g: Digraph, op: Op): set<Op>
  {
    set a | a in g.nodes && a != op && Reaches(g.edges, a, op)
  }

  lemma {:induction false} ReachWithinWalk(edges: set<(Op, Op)>, a: Op, b: Op, k: nat)
    requires ReachWithin(edges, a, b, k)
    ensures exists p :: IsWalk(edges, p) && p[0] == a && p[|p| - 1] == b && |p| <= k + 1
    decreases k
  {
    if a == b {
      assert IsWalk(edges, [a]);
    } else {
      var e :| e in edges && e.0 == a && ReachWithin(edges, e.1, b, k - 1);
      ReachWithinWalk(edges, e.1, b, k - 1);
      var q :| IsWalk(edges, q) && q[0] == e.1 && q[|q| - 1] == b && |q| <= k;
      var p := [a] + q;
      forall i | 0 <= i < |p| - 1
        ensures (p[i], p[i + 1]) in edges
      {
        if i > 0 {
          assert p[i] == q[i - 1] && p[i + 1] == q[i];
        }
      }
      assert IsWalk(edges, p) && p[0] == a && p[|p| - 1] == b;
    }
  }

  lemma {:induction false} WalkReachWithin(edges: set<(Op, Op)>, p: seq<Op>, k: nat)
    requires IsWalk(edges, p) && |p| <= k + 1
    ensures ReachWithin(edges, p[0], p[|p| - 1], k)
    decreases |p|
  {
    if |p| > 1 {
      var q := p[1..];
      forall i | 0 <= i < |q| - 1
        ensures (q[i], q[i + 1]) in edges
      {
        assert q[i] == p[i + 1] && q[i + 1] == p[i + 2];
      }
      WalkReachWithin(edges, q, k - 1);
      var e := (p[0], p[1]);
      assert e in edges && e.0 == p[0] && ReachWithin(edges, e.1, p[|p| - 1], k - 1);
    }
  }

  /** A sequence without repetitions drawn from `S` is no longer than `S` is large. */
  lemma {:induction false} DistinctBound<T>(s: seq<T>, S: set<T>)
    requires forall i, j :: 0 <= i < j < |s| ==> s[i] != s[j]
    requires forall i :: 0 <= i < |s| ==> s[i] in S
    ensures |s| <= |S|
  {
    if |s| > 0 {
      var t := s[1..];
      forall i | 0 <= i < |t|
        ensures t[i] in S - {s[0]}
      {
        assert t[i] == s[i + 1];
      }
      DistinctBound(t, S - {s[0]});
    }
  }

  /** Cutting out the loops of a walk leaves a walk with the same ends that
      uses each edge at most once. */
  lemma {:induction false} ShortWalk(edges: set<(Op, Op)>, p: seq<Op>) returns (q: seq<Op>)
    requires IsWalk(edges, p)
    ensures IsWalk(edges, q) && q[0] == p[0] && q[|q| - 1] == p[|p| - 1] && |q| <= |edges| + 1
    decreases |p|
  {
    if i, j :| 0 <= i < j < |p| && p[i] == p[j] {
      var r := p[..i] + p[j..];
      forall t | 0 <= t < |r| - 1
        ensures (r[t], r[t + 1]) in edges
      {
        if t < i - 1 {
          assert r[t] == p[t] && r[t + 1] == p[t + 1];
        } else if t == i - 1 {
          assert r[t] == p[i - 1] && r[t + 1] == p[j] == p[i];
        } else {
          assert r[t] == p[j + t - i] && r[t + 1] == p[j + t - i + 1];
        }
      }
      assert r[0] == p[0];
      assert r[|r| - 1] == p[|p| - 1];
      q := ShortWalk(edges, r);
    } else {
      var es := seq(|p| - 1, k requires 0 <= k < |p| - 1 => (p[k], p[k + 1]));
      forall m, n | 0 <= m < n < |es|
        ensures es[m] != es[n]
      {
        assert es[m].0 == p[m] && es[n].0 == p[n];
      }
      DistinctBound(es, edges);
      q := p;
    }
  }

  /** Reaches is exactly the existence of a walk. */
  lemma ReachesIffWalk(edges: set<(Op, Op)>, a: Op, b: Op)
    ensures Reaches(edges, a, b) <==> WalkBetween(edges, a, b)
  {
    if Reaches(edges, a, b) {
      ReachWithinWalk(edges, a, b, |edges|);
    }
    if WalkBetween(edges, a, b) {
      var p :| IsWalk(edges, p) && p[0] == a && p[|p| - 1] == b;
      var q := ShortWalk(edges, p);
      WalkReachWithin(edges, q, |edges|);
    }
  }

  /** The ancestors of `op` are the other nodes from which a walk leads to `op`. */
  lemma AncestorsSpec(g: Digraph, op: Op, x: Op)
    ensures x in Ancestors(g, op) <==> x in g.nodes && x != op && WalkBetween(g.edges, x, op)
  {
    ReachesIffWalk(g.edges, x, op);
  }
}
