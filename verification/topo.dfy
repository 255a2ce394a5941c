/**
  TopologicalOrdering: a depth-first traversal guarded by an in-degree test,
  and the topological order read off its finish stack.

  The class-wide `vertexStack` lives in one `TopoStatics` object that every
  instance shares; the per-vertex records (`seen`, `parent`) are arrays
  indexed by vertex.
*/
module Topological {
  import opened Graphs
  import opened Paths
  import opened DfsTheory
  import opened TopoTheory
  import opened VisitTheory

  /** The state all instances share. */
  class TopoStatics {
    var vertexStack: seq<nat>

    constructor ()
      ensures vertexStack == []
    {
      vertexStack := [];
    }
  }

  class TopologicalOrdering {
    const g: Graph
    const statics: TopoStatics
    const seen: array<bool>
    const parent: array<Option<nat>>

    ghost predicate Valid()
      reads this, g
    {
      g.Valid() && seen.Length == g.n && parent.Length == g.n
    }

    /** Fresh per-vertex records: no parent, not seen. */
    constructor (g: Graph, statics: TopoStatics)
      requires g.Valid()
      ensures Valid() && this.g == g && this.statics == statics
      ensures fresh(seen) && fresh(parent)
      ensures forall v :: 0 <= v < g.n ==> parent[v] == None && !seen[v]
    {
      this.g := g;
      this.statics := statics;
      seen := new bool[g.n](_ => false);
      parent := new Option<nat>[g.n](_ => None);
    }

    ghost function Seen(): set<nat>
      reads seen
    {
      SetOf(seen[..])
    }

    ghost function Unseen(): set<nat>
      reads seen
    {
      UnsetOf(seen[..])
    }

    /** The static `depthFirstSearch(g)`: the private one on a fresh instance. */
    static method DepthFirstSearchOf(g: Graph, statics: TopoStatics)
      returns (output: TopologicalOrdering?, ghost F: seq<nat>)
      requires g.Valid()
      modifies statics
      ensures HasSource(g.n, g.adj) ==> IsPermutation(F, g.n) && FinishOrder(g.adj, F)
      ensures !HasSource(g.n, g.adj) ==> F == []
      ensures statics.vertexStack == old(statics.vertexStack) + F
      ensures output != null <==> |statics.vertexStack| == g.n
      ensures output != null ==> fresh(output) && output.Valid() && output.g == g && output.statics == statics
    {
      var d := new TopologicalOrdering(g, statics);
      output, F := d.DepthFirstSearch();
    }

    /** The private `depthFirstSearch`: clears every vertex while counting
        them and looking for one without in-edges; only if there is one does
        it visit every unseen vertex in order.  It returns a fresh instance
        if the shared stack then holds one entry per vertex, null otherwise. */
    method DepthFirstSearch() returns (output: TopologicalOrdering?, ghost F: seq<nat>)
      requires Valid()
      modifies seen, parent, statics
      ensures HasSource(g.n, g.adj) ==> IsPermutation(F, g.n) && FinishOrder(g.adj, F)
      ensures !HasSource(g.n, g.adj) ==> F == []
      ensures statics.vertexStack == old(statics.vertexStack) + F
      ensures output != null <==> |statics.vertexStack| == g.n
      ensures output != null ==> fresh(output) && output.Valid() && output.g == g && output.statics == statics
    {
      var isCyclic := true;
      var vertexCount := 0;
      var vs := Vertices(g.n);
      var k := 0;
      while k < |vs|
        invariant 0 <= k <= g.n && vertexCount == k
        invariant forall j :: 0 <= j < k ==> !seen[j] && parent[j] == None
        invariant isCyclic <==> forall j :: 0 <= j < k ==> !NoInEdge(g.n, g.adj, j)
        invariant statics.vertexStack == old(statics.vertexStack)
      {
        var u := vs[k];
        vertexCount := vertexCount + 1;
        seen[u] := false;
        parent[u] := None;
        if g.InDegree(u) == 0 {
          isCyclic := false;
        }
        assert u == k && (g.InDegree(u) == 0 <==> NoInEdge(g.n, g.adj, u));
        k := k + 1;
      }
      assert isCyclic <==> !HasSource(g.n, g.adj);
      F := [];
      if !isCyclic {
        F := VisitAll(vs);
      } else {
        assert statics.vertexStack + [] == statics.vertexStack;
      }
      assert statics.vertexStack == old(statics.vertexStack) + F;
      if |statics.vertexStack| == vertexCount {
        output := new TopologicalOrdering(g, statics);
      } else {
        output := null;
      }
    }

    /** The second loop of `depthFirstSearch`: a visit at every vertex of
        `order` still unseen, everything being unseen at the start. */
    method VisitAll(order: seq<nat>) returns (ghost F: seq<nat>)
      requires Valid()
      requires forall k :: 0 <= k < |order| ==> order[k] < g.n
      requires forall v :: 0 <= v < g.n ==> v in order
      requires forall v :: 0 <= v < g.n ==> !seen[v] && parent[v] == None
      modifies seen, parent, statics
      ensures statics.vertexStack == old(statics.vertexStack) + F
      ensures IsPermutation(F, g.n) && FinishOrder(g.adj, F)
      ensures forall v :: 0 <= v < g.n ==> seen[v]
    {
      ghost var base := |statics.vertexStack|;
      RootsInit(g.n, g.adj, order, seen[..], parent[..], statics.vertexStack);
      F := [];
      var i := 0;
      while i < |order|
        invariant i <= |order|
        invariant RootsV(g.n, g.adj, order, i, seen[..], parent[..], statics.vertexStack, base)
        invariant statics.vertexStack == old(statics.vertexStack) + F && base == |old(statics.vertexStack)|
      {
        ghost var M := VisitRoot(order, i, base);
        AppendAssoc(old(statics.vertexStack), F, M);
        F := F + M;
        i := i + 1;
      }
      SliceAppend(old(statics.vertexStack), F, base);
      assert old(statics.vertexStack)[base..] == [];
      assert statics.vertexStack[base..] == F;
      RootsDone(g.n, g.adj, order, seen[..], parent[..], statics.vertexStack, base);
    }

    /** The body of that loop: a visit of order[i] if it is unseen. */
    method VisitRoot(order: seq<nat>, i: nat, ghost base: nat) returns (ghost M: seq<nat>)
      requires Valid() && RootsV(g.n, g.adj, order, i, seen[..], parent[..], statics.vertexStack, base)
      requires i < |order|
      modifies seen, parent, statics
      ensures RootsV(g.n, g.adj, order, i + 1, seen[..], parent[..], statics.vertexStack, base)
      ensures statics.vertexStack == old(statics.vertexStack) + M
      ensures old(seen[order[i]]) ==> M == [] && seen[..] == old(seen[..]) && parent[..] == old(parent[..])
    {
      var u := order[i];
      ghost var flags, par, stack := seen[..], parent[..], statics.vertexStack;
      if !seen[u] {
        RootEntry(g.n, g.adj, order, i, flags, par, stack, base);
        M := DfsVisit(u, [], base);
        RootVisited(g.n, g.adj, order, i, flags, par, stack, base, seen[..], parent[..], statics.vertexStack, M);
      } else {
        RootSkip(g.n, g.adj, order, i, flags, par, stack, base);
        M := [];
        assert stack + [] == stack;
      }
    }

    /** Visits u: marks it seen, visits each unseen out-neighbour in
        adjacency order with u as its parent, then pushes u.  `anc` is the
        chain of visits in progress and `base` where the current
        traversal's pushes begin. */
    method DfsVisit(u: nat, ghost anc: seq<nat>, ghost base: nat) returns (ghost N: seq<nat>)
      requires Valid() && EntryV(g.n, g.adj, seen[..], parent[..], statics.vertexStack, u, anc, base)
      modifies seen, parent, statics
      ensures VisitedV(g.n, g.adj, seen[..], parent[..], statics.vertexStack, u, anc, base,
                       old(Seen()), old(statics.vertexStack), old(parent[..]), N)
      decreases Unseen(), 0
    {
      ghost var S0 := Seen();
      Enter(u, anc, base);
      N := VisitNeighbours(u, anc, base, S0, old(statics.vertexStack), old(parent[..]));
      Finish(u, anc, base, S0, old(statics.vertexStack), old(parent[..]), N);
      N := N + [u];
    }

    /** The start of `dfsVisit`: u is marked seen. */
    method Enter(u: nat, ghost anc: seq<nat>, ghost base: nat)
      requires Valid() && EntryV(g.n, g.adj, seen[..], parent[..], statics.vertexStack, u, anc, base)
      modifies seen
      ensures VisitingV(g.n, g.adj, seen[..], parent[..], statics.vertexStack, u, anc, base,
                        old(Seen()), old(statics.vertexStack), old(parent[..]), [])
      ensures Unseen() == old(Unseen()) - {u}
    {
      EnterV(g.n, g.adj, seen[..], parent[..], statics.vertexStack, u, anc, base);
      seen[u] := true;
      assert seen[..] == old(seen[..])[u := true];
      assert parent[..] == old(parent[..]);
    }

    /** The loop of `dfsVisit`: each out-neighbour of u in adjacency order. */
    method VisitNeighbours(u: nat, ghost anc: seq<nat>, ghost base: nat, ghost S0: set<nat>,
                           ghost stack0: seq<nat>, ghost par0: seq<Option<nat>>)
      returns (ghost N: seq<nat>)
      requires Valid()
      requires VisitingV(g.n, g.adj, seen[..], parent[..], statics.vertexStack, u, anc, base, S0, stack0, par0, [])
      modifies seen, parent, statics
      ensures VisitingV(g.n, g.adj, seen[..], parent[..], statics.vertexStack, u, anc, base, S0, stack0, par0, N)
      ensures forall v :: v in g.adj[u] ==> v in S0 + {u} + Elems(N)
      ensures Unseen() <= old(Unseen())
      decreases Unseen(), 2
    {
      N := [];
      var out := g.adj[u];
      var i := 0;
      while i < |out|
        invariant 0 <= i <= |out|
        invariant VisitingV(g.n, g.adj, seen[..], parent[..], statics.vertexStack, u, anc, base, S0, stack0, par0, N)
        invariant Unseen() <= old(Unseen())
        invariant forall j :: 0 <= j < i ==> out[j] in S0 + {u} + Elems(N)
      {
        ghost var N0 := N;
        N := VisitNeighbour(u, out[i], anc, base, S0, stack0, par0, N);
        forall j | 0 <= j <= i
          ensures out[j] in S0 + {u} + Elems(N)
        {
          if j < i {
            assert out[j] in S0 + {u} + Elems(N0);
          }
        }
        i := i + 1;
      }
    }

    /** The end of `dfsVisit`: u, every out-neighbour of which is seen, is pushed. */
    method Finish(u: nat, ghost anc: seq<nat>, ghost base: nat, ghost S0: set<nat>,
                  ghost stack0: seq<nat>, ghost par0: seq<Option<nat>>, ghost N: seq<nat>)
      requires Valid() && VisitingV(g.n, g.adj, seen[..], parent[..], statics.vertexStack, u, anc, base, S0, stack0, par0, N)
      requires forall v :: v in g.adj[u] ==> v in S0 + {u} + Elems(N)
      modifies statics
      ensures VisitedV(g.n, g.adj, seen[..], parent[..], statics.vertexStack, u, anc, base, S0, stack0, par0, N + [u])
    {
      ghost var flags, par := seen[..], parent[..];
      FinishV(g.n, g.adj, flags, par, statics.vertexStack, u, anc, base, S0, stack0, par0, N);
      statics.vertexStack := statics.vertexStack + [u];
      assert seen[..] == flags && parent[..] == par;
    }

    /** One step of the walk over u's out-edges: visits v if it is still unseen. */
    method VisitNeighbour(u: nat, v: nat, ghost anc: seq<nat>, ghost base: nat, ghost S0: set<nat>,
                          ghost stack0: seq<nat>, ghost par0: seq<Option<nat>>,
                          ghost N: seq<nat>) returns (ghost N': seq<nat>)
      requires Valid() && Edge(g.adj, u, v)
      requires VisitingV(g.n, g.adj, seen[..], parent[..], statics.vertexStack, u, anc, base, S0, stack0, par0, N)
      modifies seen, parent, statics
      ensures VisitingV(g.n, g.adj, seen[..], parent[..], statics.vertexStack, u, anc, base, S0, stack0, par0, N')
      ensures Elems(N) <= Elems(N') && v in S0 + {u} + Elems(N')
      ensures Unseen() <= old(Unseen())
      ensures !old(seen[v]) ==> parent[v] == Some(u)
      decreases Unseen(), 1
    {
      N' := N;
      assert v < g.n;
      if !seen[v] {
        DescendV(g.n, g.adj, seen[..], parent[..], statics.vertexStack, u, anc, base, S0, stack0, par0, N, v);
        ghost var flags := seen[..];
        ghost var par := parent[..];
        ghost var stack := statics.vertexStack;
        parent[v] := Some(u);
        assert parent[..] == par[v := Some(u)];
        assert seen[..] == flags;
        ghost var M := DfsVisit(v, anc + [u], base);
        ReturnV(g.n, g.adj, flags, par, stack, seen[..], parent[..], statics.vertexStack,
                u, anc, base, S0, stack0, par0, N, v, M);
        ElemsAppend(N, M);
        N' := N + M;
      } else {
        assert v in Seen();
      }
    }

    /** `topologicalOrder1`: null for an undirected graph or when the
        traversal returns null; otherwise the whole shared stack popped into
        a list.  S is the stack before popping: the old entries, then the
        traversal's pushes if the graph has a vertex without in-edges. */
    method TopologicalOrder1() returns (r: Option<seq<nat>>, ghost F: seq<nat>)
      requires Valid()
      modifies statics
      ensures !g.directed ==> r == None && statics.vertexStack == old(statics.vertexStack) && F == []
      ensures g.directed && HasSource(g.n, g.adj) ==> IsPermutation(F, g.n) && FinishOrder(g.adj, F)
      ensures !HasSource(g.n, g.adj) ==> F == []
      ensures g.directed ==> (r.Some? <==> |old(statics.vertexStack)| + |F| == g.n)
      ensures g.directed && r.Some? ==> r.value == Reverse(old(statics.vertexStack) + F) && statics.vertexStack == []
      ensures g.directed && r.None? ==> statics.vertexStack == old(statics.vertexStack) + F
      ensures g.directed && old(statics.vertexStack) == [] ==> (r.Some? <==> g.n == 0 || HasSource(g.n, g.adj))
      ensures g.directed && old(statics.vertexStack) == [] && Acyclic(g.adj) ==>
                r.Some? && IsPermutation(r.value, g.n) && IsTopologicalOrder(g.adj, r.value)
    {
      F := [];
      if !g.directed {
        return None, F;
      }
      var output;
      output, F := DepthFirstSearchOf(g, statics);
      ghost var S := statics.vertexStack;
      if output == null {
        r := None;
      } else {
        var finishList := [];
        while output.statics.vertexStack != []
          invariant output.statics == statics
          invariant finishList + Reverse(statics.vertexStack) == Reverse(S)
          decreases |statics.vertexStack|
        {
          var stack := output.statics.vertexStack;
          var top := stack[|stack| - 1];
          ReverseSnoc(stack);
          AppendAssoc(finishList, [top], Reverse(stack[..|stack| - 1]));
          output.statics.vertexStack := stack[..|stack| - 1];
          finishList := finishList + [top];
        }
        r := Some(finishList);
      }
      if old(statics.vertexStack) == [] {
        assert S == F;
        if Acyclic(g.adj) {
          if g.n > 0 {
            AcyclicHasSource(g.n, g.adj);
            ReversePermutation(F, g.n);
            ReverseIsTopological(g.adj, F);
          } else {
            assert F == [] && Reverse(F) == [];
          }
        }
      }
    }

    /** The static `topologicalOrder1(g)`: the same on a fresh instance. */
    static method TopologicalOrder1Of(g: Graph, statics: TopoStatics) returns (r: Option<seq<nat>>, ghost F: seq<nat>)
      requires g.Valid()
      modifies statics
      ensures !g.directed ==> r == None && statics.vertexStack == old(statics.vertexStack) && F == []
      ensures g.directed && HasSource(g.n, g.adj) ==> IsPermutation(F, g.n) && FinishOrder(g.adj, F)
      ensures !HasSource(g.n, g.adj) ==> F == []
      ensures g.directed ==> (r.Some? <==> |old(statics.vertexStack)| + |F| == g.n)
      ensures g.directed && r.Some? ==> r.value == Reverse(old(statics.vertexStack) + F) && statics.vertexStack == []
      ensures g.directed && r.None? ==> statics.vertexStack == old(statics.vertexStack) + F
      ensures g.directed && old(statics.vertexStack) == [] ==> (r.Some? <==> g.n == 0 || HasSource(g.n, g.adj))
      ensures g.directed && old(statics.vertexStack) == [] && Acyclic(g.adj) ==>
                r.Some? && IsPermutation(r.value, g.n) && IsTopologicalOrder(g.adj, r.value)
    {
      var d := new TopologicalOrdering(g, statics);
      r, F := d.TopologicalOrder1();
    }

    /** `topologicalOrder1` with the check its documentation promises: the
        list is returned only if every edge goes forwards in it, so, starting
        from an empty shared stack, a directed graph gets a list exactly
        when it has no cycle. */
    method TopologicalOrderChecked() returns (r: Option<seq<nat>>)
      requires Valid()
      modifies statics
      ensures !g.directed ==> r == None
      ensures g.directed && old(statics.vertexStack) == [] ==> (r.Some? <==> Acyclic(g.adj))
      ensures g.directed && old(statics.vertexStack) == [] && r.Some? ==> IsPermutation(r.value, g.n)
      ensures r.Some? ==> IsTopologicalOrder(g.adj, r.value)
    {
      ghost var F;
      r, F := TopologicalOrder1();
      if r.Some? && !IsTopologicalOrder(g.adj, r.value) {
        r := None;
      }
      if g.directed && old(statics.vertexStack) == [] && r.Some? {
        assert old(statics.vertexStack) + F == F;
        if HasSource(g.n, g.adj) {
          ReversePermutation(F, g.n);
        } else {
          assert F == [] && r.value == [];
        }
        TopologicalImpliesAcyclic(g.n, g.adj, r.value);
      }
    }
  }
}
