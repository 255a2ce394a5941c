/**
  Why reading the push sequence of a depth-first traversal from its last
  entry gives a topological order of a graph without cycles, and when such a
  graph has a vertex with no in-edge.
*/
module TopoTheory {
  import opened Graphs
  import opened Paths
  import opened DfsTheory

  /** Every edge between two listed vertices goes from an earlier entry to a later one. */
  predicate IsTopologicalOrder(adj: seq<seq<nat>>, L: seq<nat>)
  {
    forall i, j :: 0 <= i < |L| && 0 <= j < |L| && Edge(adj, L[i], L[j]) ==> i < j
  }

  /** In a graph without cycles, every out-neighbour of a pushed vertex was pushed before it. */
  lemma FinishOrderAcyclic(adj: seq<seq<nat>>, F: seq<nat>, i: nat, x: nat)
    requires Acyclic(adj) && FinishOrder(adj, F)
    requires i < |F| && Edge(adj, F[i], x)
    ensures x in F[..i]
  {
    var u := F[i];
    assert IsPath(adj, [u, x]);
    assert Reach(adj, u, x);
    assert FinishedAt(adj, F, i);
    if exists a :: a !in F[..i + 1] && Mutual(adj, a, u) {
      var a :| a !in F[..i + 1] && Mutual(adj, a, u);
      assert F[..i + 1][i] == u;
      MutualNotAcyclic(adj, a, u);
    }
    assert x in F[..i + 1];
    assert x != u by {
      assert IsPath(adj, [u, x]) && |[u, x]| >= 2;
    }
    var k :| 0 <= k <= i && F[k] == x;
    assert F[..i][k] == x;
  }

  /** In a listing without repetitions, the entry at k lies before position i only if k < i. */
  lemma SliceDistinctIndex(F: seq<nat>, i: nat, k: nat)
    requires Distinct(F) && i <= |F| && k < |F| && F[k] in F[..i]
    ensures k < i
  {
    var p :| 0 <= p < i && F[..i][p] == F[k];
    assert F[p] == F[k];
  }

  /** The push sequence read backwards is a topological order. */
  lemma ReverseIsTopological(adj: seq<seq<nat>>, F: seq<nat>)
    requires Acyclic(adj) && Distinct(F) && FinishOrder(adj, F)
    ensures IsTopologicalOrder(adj, Reverse(F))
  {
    var L := Reverse(F);
    var m := |F|;
    forall i, j | 0 <= i < |L| && 0 <= j < |L| && Edge(adj, L[i], L[j])
      ensures i < j
    {
      assert L[i] == F[m - 1 - i] && L[j] == F[m - 1 - j];
      FinishOrderAcyclic(adj, F, m - 1 - i, L[j]);
      SliceDistinctIndex(F, m - 1 - i, m - 1 - j);
    }
  }

  /** Along a walk, positions in a topological order increase strictly. */
  lemma {:induction false} TopologicalAlongPath(n: nat, adj: seq<seq<nat>>, L: seq<nat>, p: seq<nat>)
    requires WellFormed(n, adj) && IsPermutation(L, n) && IsTopologicalOrder(adj, L)
    requires IsPath(adj, p) && |p| >= 2 && p[0] < n
    ensures exists i, j :: 0 <= i < j < |L| && L[i] == p[0] && L[j] == p[|p| - 1]
    decreases |p|
  {
    assert Edge(adj, p[0], p[1]);
    PathBounded(n, adj, p);
    assert p[0] in L && p[1] in L;
    var i :| 0 <= i < |L| && L[i] == p[0];
    var j :| 0 <= j < |L| && L[j] == p[1];
    if |p| > 2 {
      PathSlice(adj, p, 1, |p|);
      TopologicalAlongPath(n, adj, L, p[1..]);
      var j', k :| 0 <= j' < k < |L| && L[j'] == p[1] && L[k] == p[|p| - 1];
      assert j' == j;
    }
  }

  /** A topological order of every vertex rules out cycles. */
  lemma TopologicalImpliesAcyclic(n: nat, adj: seq<seq<nat>>, L: seq<nat>)
    requires WellFormed(n, adj) && IsPermutation(L, n) && IsTopologicalOrder(adj, L)
    ensures Acyclic(adj)
  {
    forall p | IsPath(adj, p) && |p| >= 2
      ensures p[0] != p[|p| - 1]
    {
      assert Edge(adj, p[0], p[1]);
      TopologicalAlongPath(n, adj, L, p);
    }
  }

  /** A cycle leaves no listing of the vertices topological. */
  lemma CyclicHasNoOrder(n: nat, adj: seq<seq<nat>>, L: seq<nat>)
    requires WellFormed(n, adj) && IsPermutation(L, n) && !Acyclic(adj)
    ensures !IsTopologicalOrder(adj, L)
  {
    if IsTopologicalOrder(adj, L) {
      TopologicalImpliesAcyclic(n, adj, L);
    }
  }

  /** No vertex has an edge into v. */
  ghost predicate NoInEdge(n: nat, adj: seq<seq<nat>>, v: nat)
  {
    forall u :: 0 <= u < n ==> !Edge(adj, u, v)
  }

  /** Some vertex has no in-edge. */
  ghost predicate HasSource(n: nat, adj: seq<seq<nat>>)
  {
    exists v :: 0 <= v < n && NoInEdge(n, adj, v)
  }

  /** Walking backwards from a vertex of a graph without a source never stops. */
  lemma {:induction false} BackwardWalk(n: nat, adj: seq<seq<nat>>, len: nat) returns (p: seq<nat>)
    requires n > 0 && !HasSource(n, adj)
    ensures |p| == len + 1 && IsPath(adj, p)
    ensures forall k :: 0 <= k < |p| ==> p[k] < n
    decreases len
  {
    if len == 0 {
      p := [0];
    } else {
      var q := BackwardWalk(n, adj, len - 1);
      var v := q[0];
      assert !NoInEdge(n, adj, v);
      var u :| 0 <= u < n && Edge(adj, u, v);
      p := [u] + q;
      forall k | 0 <= k < |p| - 1
        ensures Edge(adj, p[k], p[k + 1])
      {
        if k > 0 {
          assert p[k] == q[k - 1] && p[k + 1] == q[k];
        }
      }
    }
  }

  /** A non-empty graph without cycles has a vertex with no in-edge. */
  lemma AcyclicHasSource(n: nat, adj: seq<seq<nat>>)
    requires n > 0 && Acyclic(adj)
    ensures HasSource(n, adj)
  {
    if !HasSource(n, adj) {
      var p := BackwardWalk(n, adj, n);
      Pigeonhole(p, n);
      var i, j :| 0 <= i < j < |p| && p[i] == p[j];
      PathSlice(adj, p, i, j + 1);
      assert false;
    }
  }

  /** Edges 0->1, 1->2, 2->1: vertex 0 has no in-edge, yet 1 and 2 form a
      cycle, so no listing of the three vertices is topological. */
  lemma CyclicWithSource(L: seq<nat>)
    requires IsPermutation(L, 3)
    ensures WellFormed(3, [[1], [2], [1]]) && HasSource(3, [[1], [2], [1]])
    ensures !Acyclic([[1], [2], [1]]) && !IsTopologicalOrder([[1], [2], [1]], L)
  {
    var adj: seq<seq<nat>> := [[1], [2], [1]];
    assert NoInEdge(3, adj, 0);
    var p: seq<nat> := [1, 2, 1];
    assert Edge(adj, p[0], p[1]) && Edge(adj, p[1], p[2]);
    assert IsPath(adj, p);
    CyclicHasNoOrder(3, adj, L);
  }

  /** The seven-vertex graph 1->2, 1->3, 2->4, 3->4, 4->5, 5->1, 6->7, 7->6
      (numbered from 0 here) gives every vertex an in-edge. */
  lemma EveryVertexEntered()
    ensures WellFormed(7, [[1, 2], [3], [3], [4], [0], [6], [5]])
    ensures !HasSource(7, [[1, 2], [3], [3], [4], [0], [6], [5]])
  {
    var adj: seq<seq<nat>> := [[1, 2], [3], [3], [4], [0], [6], [5]];
    var from: seq<nat> := [4, 0, 0, 1, 3, 6, 5];
    forall v | 0 <= v < 7
      ensures !NoInEdge(7, adj, v)
    {
      assert Edge(adj, from[v], v);
    }
  }
}
