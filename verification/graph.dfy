/**
  The graph collaborator the algorithms run over.

  Vertices are the numbers 0..n-1 (the repository numbers them 1..n, so its
  vertex k is vertex k-1 here).  `adj[u]` lists the other ends of u's
  out-edges in adjacency order; `radj[v]` lists the tails of v's in-edges.
  The graph's storage is not part of this model: the class keeps only what
  the algorithms observe.
*/
module Graphs {

  /** Every listed neighbour is a vertex. */
  ghost predicate WellFormed(n: nat, adj: seq<seq<nat>>)
  {
    |adj| == n && forall u, j :: 0 <= u < n && 0 <= j < |adj[u]| ==> adj[u][j] < n
  }

  /** There is an edge from u to v. */
  predicate Edge(adj: seq<seq<nat>>, u: nat, v: nat)
  {
    u < |adj| && v in adj[u]
  }

  /** radj has exactly the edges of adj, each turned round. */
  ghost predicate IsTranspose(adj: seq<seq<nat>>, radj: seq<seq<nat>>)
  {
    |adj| == |radj| && forall u, v :: Edge(adj, u, v) <==> Edge(radj, v, u)
  }

  /** p is a walk of at least one vertex along edges of adj. */
  ghost predicate IsPath(adj: seq<seq<nat>>, p: seq<nat>)
  {
    |p| >= 1 && forall k :: 0 <= k < |p| - 1 ==> Edge(adj, p[k], p[k + 1])
  }

  /** b is reachable from a (every vertex reaches itself). */
  ghost predicate Reach(adj: seq<seq<nat>>, a: nat, b: nat)
  {
    exists p :: IsPath(adj, p) && p[0] == a && p[|p| - 1] == b
  }

  /** a and b lie in the same strongly connected component. */
  ghost predicate Mutual(adj: seq<seq<nat>>, a: nat, b: nat)
  {
    Reach(adj, a, b) && Reach(adj, b, a)
  }

  /** The strongly connected component of v. */
  ghost function SccOf(adj: seq<seq<nat>>, v: nat): set<nat>
  {
    set z | 0 <= z < |adj| && Mutual(adj, v, z)
  }

  /** The set of all strongly connected components. */
  ghost function Components(adj: seq<seq<nat>>): set<set<nat>>
  {
    set v | 0 <= v < |adj| :: SccOf(adj, v)
  }

  /** No walk of one edge or more returns to where it started. */
  ghost predicate Acyclic(adj: seq<seq<nat>>)
  {
    forall p :: IsPath(adj, p) && |p| >= 2 ==> p[0] != p[|p| - 1]
  }

  /** No vertex of p is in S. */
  ghost predicate Avoids(p: seq<nat>, S: set<nat>)
  {
    forall k :: 0 <= k < |p| ==> p[k] !in S
  }

  /** b is reachable from a along a walk that never enters S. */
  ghost predicate WhiteReach(adj: seq<seq<nat>>, S: set<nat>, a: nat, b: nat)
  {
    exists p :: IsPath(adj, p) && p[0] == a && p[|p| - 1] == b && Avoids(p, S)
  }

  /** The vertices a depth-first visit of a reaches when S is already seen. */
  ghost function WhiteSet(adj: seq<seq<nat>>, S: set<nat>, a: nat): set<nat>
  {
    set z | 0 <= z < |adj| && WhiteReach(adj, S, a, z)
  }

  /** The vertices in the graph's own iteration order. */
  function Vertices(n: nat): (vs: seq<nat>)
    ensures |vs| == n && forall i :: 0 <= i < n ==> vs[i] == i
    ensures forall v :: 0 <= v < n ==> v in vs
  {
    if n == 0 then [] else Vertices(n - 1) + [n - 1]
  }

  /** Stand-in for rbk.Graph: the vertex count, directedness, and both edge lists. */
  class Graph {
    const n: nat
    const directed: bool
    var adj: seq<seq<nat>>
    var radj: seq<seq<nat>>

    ghost predicate Valid()
      reads this
    {
      WellFormed(n, adj) && WellFormed(n, radj) && IsTranspose(adj, radj)
    }

    constructor (n: nat, directed: bool, adj: seq<seq<nat>>, radj: seq<seq<nat>>)
      requires WellFormed(n, adj) && WellFormed(n, radj) && IsTranspose(adj, radj)
      ensures Valid()
      ensures this.n == n && this.directed == directed && this.adj == adj && this.radj == radj
    {
      this.n := n;
      this.directed := directed;
      this.adj := adj;
      this.radj := radj;
    }

    /** Turns every edge round, in place, by exchanging the out- and in-lists. */
    method ReverseGraph()
      requires Valid()
      modifies this
      ensures Valid()
      ensures adj == old(radj) && radj == old(adj)
    {
      adj, radj := radj, adj;
    }

    /** The number of in-edges of v. */
    function InDegree(v: nat): (d: nat)
      reads this
      requires Valid() && v < n
      ensures d == 0 <==> forall u :: 0 <= u < n ==> !Edge(adj, u, v)
    {
      assert forall u :: Edge(adj, u, v) ==> Edge(radj, v, u);
      assert |radj[v]| > 0 ==> Edge(adj, radj[v][0], v);
      |radj[v]|
    }
  }
}
