/**
  StronglyConnectedComponents: the depth-first engine with component numbers,
  the topological order built on it, and the two-pass component algorithm.

  The class-wide `vertexStack` and `componentNumber` live in one
  `SccStatics` object that every instance shares; the per-vertex records
  (`seen`, `parent`, `cno`) are arrays indexed by vertex.
*/
module StronglyConnected {
  import opened Graphs
  import opened Paths
  import opened DfsTheory
  import opened SccTheory
  import opened TopoTheory
  import opened VisitTheory

  /** The state all instances share. */
  class SccStatics {
    var vertexStack: seq<nat>
    var componentNumber: int

    constructor ()
      ensures vertexStack == [] && componentNumber == 0
    {
      vertexStack := [];
      componentNumber := 0;
    }
  }

  /** Before the root loop reaches order[i]: the trees so far are the first
      trees of the forest over `order`, each seen vertex carries the number
      of its tree, only a tree's root has no parent, and a parent edge stays
      inside one tree. */
  ghost predicate NumberedV(n: nat, adj: seq<seq<nat>>, order: seq<nat>, i: nat, flags: seq<bool>,
                            par: seq<Option<nat>>, cnos: seq<int>, trees: seq<Tree>)
  {
    && |flags| == n && |par| == n && |cnos| == n && i <= |order|
    && Forest(adj, order, {}) == trees + Forest(adj, order[i..], SetOf(flags))
    && (forall v :: 0 <= v < n ==>
          if flags[v] then 1 <= cnos[v] <= |trees| && v in trees[cnos[v] - 1].members else cnos[v] == 0)
    && (forall v :: 0 <= v < n && flags[v] ==> (par[v] == None <==> v == trees[cnos[v] - 1].root))
    && (forall v :: 0 <= v < n && flags[v] && par[v].Some? ==>
          par[v].value < n && Edge(adj, par[v].value, v) && cnos[par[v].value] == cnos[v])
  }

  lemma NumberedInit(n: nat, adj: seq<seq<nat>>, order: seq<nat>, flags: seq<bool>,
                     par: seq<Option<nat>>, cnos: seq<int>)
    requires |flags| == n && |par| == n && |cnos| == n && SetOf(flags) == {}
    requires forall v :: 0 <= v < n ==> !flags[v] && cnos[v] == 0
    ensures NumberedV(n, adj, order, 0, flags, par, cnos, [])
  {
    assert order[0..] == order;
  }

  /** What a whole traversal over `order` leaves, given its pushes F and its
      trees: F lists every vertex once in a finish order, the trees are the
      forest over `order`, every vertex carries the number of its tree, only
      roots lack a parent, a parent edge is an edge inside one tree, and a
      child is pushed before its parent. */
  ghost predicate Traversed(n: nat, adj: seq<seq<nat>>, order: seq<nat>, par: seq<Option<nat>>, cnos: seq<int>,
                            F: seq<nat>, trees: seq<Tree>)
  {
    && |par| == n && |cnos| == n
    && IsPermutation(F, n) && FinishOrder(adj, F)
    && trees == Forest(adj, order, {})
    && (forall v :: 0 <= v < n ==> 1 <= cnos[v] <= |trees| && v in trees[cnos[v] - 1].members)
    && (forall v :: 0 <= v < n ==> (par[v] == None <==> v == trees[cnos[v] - 1].root))
    && (forall v :: 0 <= v < n && par[v].Some? ==>
          par[v].value < n && Edge(adj, par[v].value, v) && cnos[par[v].value] == cnos[v])
    && TreeEdgesBefore(par, F)
  }

  /** After the last entry of the root loop the traversal is complete. */
  lemma TraversalDone(n: nat, adj: seq<seq<nat>>, order: seq<nat>, flags: seq<bool>,
                      par: seq<Option<nat>>, cnos: seq<int>, stack: seq<nat>, base: nat, F: seq<nat>,
                      trees: seq<Tree>)
    requires RootsV(n, adj, order, |order|, flags, par, stack, base)
    requires NumberedV(n, adj, order, |order|, flags, par, cnos, trees)
    requires forall v :: 0 <= v < n ==> v in order
    requires base <= |stack| && stack[base..] == F
    ensures Traversed(n, adj, order, par, cnos, F, trees)
    ensures forall v :: 0 <= v < n ==> flags[v]
  {
    RootsDone(n, adj, order, flags, par, stack, base);
    assert order[|order|..] == [];
  }

  /** An entry already seen starts no tree. */
  lemma NumberedSkip(n: nat, adj: seq<seq<nat>>, order: seq<nat>, i: nat, flags: seq<bool>,
                     par: seq<Option<nat>>, cnos: seq<int>, trees: seq<Tree>)
    requires NumberedV(n, adj, order, i, flags, par, cnos, trees)
    requires i < |order| && order[i] < n && flags[order[i]]
    ensures NumberedV(n, adj, order, i + 1, flags, par, cnos, trees)
  {
    assert order[i] in SetOf(flags);
    ForestSkip(adj, order, i, SetOf(flags));
  }

  /** cnos with the vertices of X numbered c. */
  ghost function Mark(cnos: seq<int>, X: set<nat>, c: int): (r: seq<int>)
    ensures |r| == |cnos|
    ensures forall v :: 0 <= v < |cnos| ==> r[v] == if v in X then c else cnos[v]
  {
    seq(|cnos|, v requires 0 <= v < |cnos| => if v in X then c else cnos[v])
  }

  /** Numbering one vertex is marking the set holding it. */
  lemma MarkOne(cnos: seq<int>, u: nat, c: int)
    requires u < |cnos|
    ensures cnos[u := c] == Mark(cnos, {u}, c)
  {
  }

  /** Marking what a visit pushed, u last, is marking u and the rest. */
  lemma MarkSnoc(cno0: seq<int>, N: seq<nat>, u: nat, c: int, cnos: seq<int>)
    requires cnos == Mark(cno0, Elems(N) + {u}, c)
    ensures cnos == Mark(cno0, Elems(N + [u]), c)
  {
    ElemsSnoc(N, u);
  }

  /** Marking twice with one number is marking the union. */
  lemma MarkTwice(cnos: seq<int>, X: set<nat>, Y: set<nat>, c: int)
    ensures Mark(Mark(cnos, X, c), Y, c) == Mark(cnos, X + Y, c)
  {
  }

  /** The visit started at an unseen order[i], numbered one past the trees so
      far, is the next tree of the forest. */
  lemma NumberedStep(n: nat, adj: seq<seq<nat>>, order: seq<nat>, i: nat, flags: seq<bool>,
                     par: seq<Option<nat>>, cnos: seq<int>, trees: seq<Tree>,
                     flags': seq<bool>, par': seq<Option<nat>>, cnos': seq<int>, M: seq<nat>, c: int)
    requires NumberedV(n, adj, order, i, flags, par, cnos, trees)
    requires i < |order| && order[i] < n && !flags[order[i]] && par[order[i]] == None
    requires |flags'| == n && |par'| == n && |cnos'| == n
    requires Elems(M) == WhiteSet(adj, SetOf(flags), order[i]) && order[i] in Elems(M)
    requires SetOf(flags') == SetOf(flags) + Elems(M)
    requires forall v :: 0 <= v < n && (v !in Elems(M) || v == order[i]) ==> par'[v] == par[v]
    requires forall v :: v in Elems(M) && v != order[i] ==>
               v < n && par'[v].Some? && par'[v].value in Elems(M) && Edge(adj, par'[v].value, v)
    requires c == |trees| + 1 && |cnos| == n && cnos' == Mark(cnos, Elems(M), c)
    ensures NumberedV(n, adj, order, i + 1, flags', par', cnos', trees + [Tree(order[i], Elems(M))])
  {
    var u := order[i];
    var S := SetOf(flags);
    var t := Tree(u, Elems(M));
    var trees' := trees + [t];
    assert u !in S;
    ForestNext(adj, order, i, S);
    assert Forest(adj, order, {}) == trees' + Forest(adj, order[i + 1..], SetOf(flags'));
    WhiteSetOutside(adj, S, u);
    NumberedMembers(n, order, i, flags, par, cnos, trees, flags', par', cnos', M);
    forall v | 0 <= v < n && flags'[v] && par'[v].Some?
      ensures par'[v].value < n && Edge(adj, par'[v].value, v) && cnos'[par'[v].value] == cnos'[v]
    {
      assert v in SetOf(flags');
      if v !in Elems(M) {
        assert v in S;
        var w := par[v].value;
        assert flags[w];
        assert w in S;
      }
    }
  }

  /** The numbering and root facts of NumberedStep, vertex by vertex. */
  lemma NumberedMembers(n: nat, order: seq<nat>, i: nat, flags: seq<bool>,
                        par: seq<Option<nat>>, cnos: seq<int>, trees: seq<Tree>,
                        flags': seq<bool>, par': seq<Option<nat>>, cnos': seq<int>, M: seq<nat>)
    requires |flags| == n && |par| == n && |cnos| == n && |flags'| == n && |par'| == n && |cnos'| == n
    requires i < |order| && order[i] < n && !flags[order[i]] && par[order[i]] == None
    requires forall v :: 0 <= v < n ==>
               if flags[v] then 1 <= cnos[v] <= |trees| && v in trees[cnos[v] - 1].members else cnos[v] == 0
    requires forall v :: 0 <= v < n && flags[v] ==> (par[v] == None <==> v == trees[cnos[v] - 1].root)
    requires SetOf(flags') == SetOf(flags) + Elems(M) && SetOf(flags) !! Elems(M)
    requires forall v :: 0 <= v < n && (v !in Elems(M) || v == order[i]) ==> par'[v] == par[v]
    requires forall v :: v in Elems(M) && v != order[i] ==> par'[v].Some?
    requires forall v :: 0 <= v < n ==> cnos'[v] == if v in Elems(M) then |trees| + 1 else cnos[v]
    ensures forall v :: 0 <= v < n ==>
              if flags'[v] then 1 <= cnos'[v] <= |trees| + 1 && v in (trees + [Tree(order[i], Elems(M))])[cnos'[v] - 1].members
              else cnos'[v] == 0
    ensures forall v :: 0 <= v < n && flags'[v] ==>
              (par'[v] == None <==> v == (trees + [Tree(order[i], Elems(M))])[cnos'[v] - 1].root)
  {
    var u := order[i];
    var t := Tree(u, Elems(M));
    var trees' := trees + [t];
    forall v | 0 <= v < n
      ensures if flags'[v] then 1 <= cnos'[v] <= |trees'| && v in trees'[cnos'[v] - 1].members else cnos'[v] == 0
      ensures flags'[v] ==> (par'[v] == None <==> v == trees'[cnos'[v] - 1].root)
    {
      if v in Elems(M) {
        assert v in SetOf(flags');
        assert trees'[|trees|] == t;
      } else if flags[v] {
        assert v in SetOf(flags) && v in SetOf(flags');
        assert trees'[cnos[v] - 1] == trees[cnos[v] - 1];
      } else {
        assert v !in SetOf(flags) && v !in SetOf(flags');
      }
    }
  }

  /** The list popped after the first traversal of the component algorithm
      starts with that traversal's pushes read backwards and names every
      vertex. */
  lemma ListOfFinish(n: nat, stale: seq<nat>, F: seq<nat>, list: seq<nat>)
    requires IsPermutation(F, n) && list == Reverse(stale + F)
    requires forall k :: 0 <= k < |stale| ==> stale[k] < n
    ensures |F| <= |list| && forall k :: 0 <= k < |F| ==> list[k] == F[|F| - 1 - k]
    ensures forall k :: 0 <= k < |list| ==> list[k] < n
    ensures forall v :: 0 <= v < n ==> v in list
  {
    ReverseAppend(stale, F);
    ReverseElems(F);
    ReverseElems(stale);
    var rf, rs := Reverse(F), Reverse(stale);
    assert list == rf + rs;
    forall k | 0 <= k < |list|
      ensures list[k] < n
    {
      if k < |rf| {
        assert list[k] == rf[k] && rf[k] in F;
      } else {
        assert list[k] == rs[k - |rf|] && rs[k - |rf|] in stale;
      }
    }
    forall v | 0 <= v < n
      ensures v in list
    {
      assert v in F && v in rf;
    }
  }

  /** The numbers the second traversal leaves on the transposed graph are
      the strongly connected components of the original graph. */
  lemma KosarajuNumbers(n: nat, adj: seq<seq<nat>>, adjT: seq<seq<nat>>, F: seq<nat>, list: seq<nat>,
                        par: seq<Option<nat>>, cnos: seq<int>, F2: seq<nat>, trees: seq<Tree>)
    requires WellFormed(n, adj) && IsTranspose(adj, adjT)
    requires IsPermutation(F, n) && FinishOrder(adj, F)
    requires |F| <= |list| && forall k :: 0 <= k < |F| ==> list[k] == F[|F| - 1 - k]
    requires forall k :: 0 <= k < |list| ==> list[k] < n
    requires Traversed(n, adjT, list, par, cnos, F2, trees)
    ensures forall u, v :: 0 <= u < n && 0 <= v < n ==> (cnos[u] == cnos[v] <==> Mutual(adj, u, v))
    ensures |trees| == |Components(adj)|
  {
    assert forall x :: x in list ==> x < |adjT|;
    Kosaraju(n, adj, adjT, F, list);
    ForestDisjoint(adjT, list, {});
    ForestTrees(adjT, list, {});
    SameNumberIffMutual(n, adj, trees, cnos);
    forall v | 0 <= v < n
      ensures InSomeTree(trees, v)
    {
      assert v in trees[cnos[v] - 1].members;
    }
    ComponentCount(n, adj, trees);
  }

  class StronglyConnectedComponents {
    const g: Graph
    const statics: SccStatics
    const seen: array<bool>
    const parent: array<Option<nat>>
    const cno: array<int>

    ghost predicate Valid()
      reads this, g
    {
      g.Valid() && seen.Length == g.n && parent.Length == g.n && cno.Length == g.n
    }

    /** Fresh per-vertex records: number 0, no parent, not seen. */
    constructor (g: Graph, statics: SccStatics)
      requires g.Valid()
      ensures Valid() && this.g == g && this.statics == statics
      ensures fresh(seen) && fresh(parent) && fresh(cno)
      ensures forall v :: 0 <= v < g.n ==> cno[v] == 0 && parent[v] == None && !seen[v]
    {
      this.g := g;
      this.statics := statics;
      seen := new bool[g.n](_ => false);
      parent := new Option<nat>[g.n](_ => None);
      cno := new int[g.n](_ => 0);
    }

    ghost function Seen(): set<nat>
      reads seen
    {
      SetOf(seen[..])
    }

    ghost function Unseen(): set<nat>
      reads seen
    {
      UnsetOf(seen[..])
    }

    /** The traversal `dfs`: resets every vertex of `order`, sets the
        component number to 0, then starts a visit, under the next number,
        at each vertex of `order` still unseen.  F is what it pushes and
        `trees` the trees it grows. */
    method Dfs(order: seq<nat>) returns (ghost F: seq<nat>, ghost trees: seq<Tree>)
      requires Valid()
      requires forall k :: 0 <= k < |order| ==> order[k] < g.n
      requires forall v :: 0 <= v < g.n ==> v in order
      modifies seen, parent, cno, statics
      ensures statics.vertexStack == old(statics.vertexStack) + F
      ensures Traversed(g.n, g.adj, order, parent[..], cno[..], F, trees)
      ensures forall v :: 0 <= v < g.n ==> seen[v]
      ensures statics.componentNumber == |trees|
    {
      statics.componentNumber := 0;
      Reset(order);
      ghost var base := |statics.vertexStack|;
      RootsInit(g.n, g.adj, order, seen[..], parent[..], statics.vertexStack);
      NumberedInit(g.n, g.adj, order, seen[..], parent[..], cno[..]);
      F := [];
      trees := [];
      var i := 0;
      while i < |order|
        invariant i <= |order|
        invariant RootsV(g.n, g.adj, order, i, seen[..], parent[..], statics.vertexStack, base)
        invariant NumberedV(g.n, g.adj, order, i, seen[..], parent[..], cno[..], trees)
        invariant statics.componentNumber == |trees|
        invariant statics.vertexStack == old(statics.vertexStack) + F && base == |old(statics.vertexStack)|
      {
        ghost var M;
        M, trees := VisitRoot(order, i, base, trees);
        AppendAssoc(old(statics.vertexStack), F, M);
        F := F + M;
        i := i + 1;
      }
      SliceAppend(old(statics.vertexStack), F, base);
      assert old(statics.vertexStack)[base..] == [];
      TraversalDone(g.n, g.adj, order, seen[..], parent[..], cno[..], statics.vertexStack, base, F, trees);
    }

    /** The body of `dfs`'s second loop: if order[i] is unseen, the next
        component number and a visit of it.  M is what the visit pushes and
        trees' the trees grown so far. */
    method VisitRoot(order: seq<nat>, i: nat, ghost base: nat, ghost trees: seq<Tree>)
      returns (ghost M: seq<nat>, ghost trees': seq<Tree>)
      requires Valid() && RootsV(g.n, g.adj, order, i, seen[..], parent[..], statics.vertexStack, base)
      requires i < |order|
      requires NumberedV(g.n, g.adj, order, i, seen[..], parent[..], cno[..], trees)
      requires statics.componentNumber == |trees|
      modifies seen, parent, cno, statics
      ensures RootsV(g.n, g.adj, order, i + 1, seen[..], parent[..], statics.vertexStack, base)
      ensures NumberedV(g.n, g.adj, order, i + 1, seen[..], parent[..], cno[..], trees')
      ensures statics.componentNumber == |trees'|
      ensures statics.vertexStack == old(statics.vertexStack) + M
      ensures old(seen[order[i]]) ==>
                M == [] && trees' == trees && seen[..] == old(seen[..]) && parent[..] == old(parent[..]) &&
                cno[..] == old(cno[..]) && statics.componentNumber == old(statics.componentNumber)
    {
      var u := order[i];
      ghost var flags, par, cnos, stack := seen[..], parent[..], cno[..], statics.vertexStack;
      if !seen[u] {
        RootEntry(g.n, g.adj, order, i, flags, par, stack, base);
        statics.componentNumber := statics.componentNumber + 1;
        assert seen[..] == flags && parent[..] == par && cno[..] == cnos;
        M := DfsVisit(u, [], base);
        RootVisited(g.n, g.adj, order, i, flags, par, stack, base, seen[..], parent[..], statics.vertexStack, M);
        NumberedStep(g.n, g.adj, order, i, flags, par, cnos, trees, seen[..], parent[..], cno[..], M, statics.componentNumber);
        trees' := trees + [Tree(u, Elems(M))];
      } else {
        RootSkip(g.n, g.adj, order, i, flags, par, stack, base);
        NumberedSkip(g.n, g.adj, order, i, flags, par, cnos, trees);
        M, trees' := [], trees;
        assert stack + [] == stack;
      }
    }

    /** The first loop of `dfs`: clears the number, parent and seen flag of every vertex of `order`. */
    method Reset(order: seq<nat>)
      requires Valid()
      requires forall k :: 0 <= k < |order| ==> order[k] < g.n
      requires forall v :: 0 <= v < g.n ==> v in order
      modifies seen, parent, cno
      ensures forall v :: 0 <= v < g.n ==> !seen[v] && cno[v] == 0 && parent[v] == None
    {
      var k := 0;
      while k < |order|
        invariant 0 <= k <= |order|
        invariant forall j :: 0 <= j < k ==> cno[order[j]] == 0 && !seen[order[j]] && parent[order[j]] == None
      {
        var u := order[k];
        cno[u] := 0;
        seen[u] := false;
        parent[u] := None;
        k := k + 1;
      }
      forall v | 0 <= v < g.n
        ensures !seen[v] && cno[v] == 0 && parent[v] == None
      {
        assert v in order;
        var j :| 0 <= j < |order| && order[j] == v;
      }
    }

    /** Visits u: marks it seen with the current component number, visits each
        unseen out-neighbour in adjacency order with u as its parent, then
        pushes u.  `anc` is the chain of visits in progress and `base` where
        the current traversal's pushes begin. */
    method DfsVisit(u: nat, ghost anc: seq<nat>, ghost base: nat) returns (ghost N: seq<nat>)
      requires Valid() && EntryV(g.n, g.adj, seen[..], parent[..], statics.vertexStack, u, anc, base)
      modifies seen, parent, cno, statics`vertexStack
      ensures VisitedV(g.n, g.adj, seen[..], parent[..], statics.vertexStack, u, anc, base,
                       old(Seen()), old(statics.vertexStack), old(parent[..]), N)
      ensures cno[..] == Mark(old(cno[..]), Elems(N), statics.componentNumber)
      decreases Unseen(), 0
    {
      ghost var S0 := Seen();
      ghost var c := statics.componentNumber;
      Enter(u, anc, base);
      N := VisitNeighbours(u, anc, base, S0, old(statics.vertexStack), old(cno[..]), old(parent[..]), c);
      ghost var cnos := cno[..];
      Finish(u, anc, base, S0, old(statics.vertexStack), old(parent[..]), N);
      assert cno[..] == cnos;
      MarkSnoc(old(cno[..]), N, u, c, cnos);
      N := N + [u];
    }

    /** The start of `dfsVisit`: u is marked seen and given the current component number. */
    method Enter(u: nat, ghost anc: seq<nat>, ghost base: nat)
      requires Valid() && EntryV(g.n, g.adj, seen[..], parent[..], statics.vertexStack, u, anc, base)
      modifies seen, cno
      ensures VisitingV(g.n, g.adj, seen[..], parent[..], statics.vertexStack, u, anc, base,
                        old(Seen()), old(statics.vertexStack), old(parent[..]), [])
      ensures cno[..] == Mark(old(cno[..]), Elems([]) + {u}, statics.componentNumber)
      ensures Unseen() == old(Unseen()) - {u}
    {
      EnterV(g.n, g.adj, seen[..], parent[..], statics.vertexStack, u, anc, base);
      seen[u] := true;
      cno[u] := statics.componentNumber;
      assert seen[..] == old(seen[..])[u := true];
      assert parent[..] == old(parent[..]);
      assert cno[..] == old(cno[..])[u := statics.componentNumber];
      MarkOne(old(cno[..]), u, statics.componentNumber);
      ElemsNone(u);
    }

    /** The end of `dfsVisit`: u, every out-neighbour of which is seen, is pushed. */
    method Finish(u: nat, ghost anc: seq<nat>, ghost base: nat, ghost S0: set<nat>,
                  ghost stack0: seq<nat>, ghost par0: seq<Option<nat>>, ghost N: seq<nat>)
      requires Valid() && VisitingV(g.n, g.adj, seen[..], parent[..], statics.vertexStack, u, anc, base, S0, stack0, par0, N)
      requires forall v :: v in g.adj[u] ==> v in S0 + {u} + Elems(N)
      modifies statics`vertexStack
      ensures VisitedV(g.n, g.adj, seen[..], parent[..], statics.vertexStack, u, anc, base, S0, stack0, par0, N + [u])
    {
      ghost var flags, par := seen[..], parent[..];
      FinishV(g.n, g.adj, flags, par, statics.vertexStack, u, anc, base, S0, stack0, par0, N);
      statics.vertexStack := statics.vertexStack + [u];
      assert seen[..] == flags && parent[..] == par;
    }

    /** The loop of `dfsVisit`: each out-neighbour of u in adjacency order. */
    method VisitNeighbours(u: nat, ghost anc: seq<nat>, ghost base: nat, ghost S0: set<nat>,
                           ghost stack0: seq<nat>, ghost cno0: seq<int>, ghost par0: seq<Option<nat>>, ghost c: int)
      returns (ghost N: seq<nat>)
      requires Valid() && statics.componentNumber == c
      requires VisitingV(g.n, g.adj, seen[..], parent[..], statics.vertexStack, u, anc, base, S0, stack0, par0, [])
      requires cno[..] == Mark(cno0, Elems([]) + {u}, c)
      modifies seen, parent, cno, statics`vertexStack
      ensures VisitingV(g.n, g.adj, seen[..], parent[..], statics.vertexStack, u, anc, base, S0, stack0, par0, N)
      ensures cno[..] == Mark(cno0, Elems(N) + {u}, c)
      ensures forall v :: v in g.adj[u] ==> v in S0 + {u} + Elems(N)
      ensures Unseen() <= old(Unseen()) && statics.componentNumber == c
      decreases Unseen(), 2
    {
      N := [];
      var out := g.adj[u];
      var i := 0;
      while i < |out|
        invariant 0 <= i <= |out|
        invariant VisitingV(g.n, g.adj, seen[..], parent[..], statics.vertexStack, u, anc, base, S0, stack0, par0, N)
        invariant cno[..] == Mark(cno0, Elems(N) + {u}, c)
        invariant Unseen() <= old(Unseen())
        invariant forall j :: 0 <= j < i ==> out[j] in S0 + {u} + Elems(N)
      {
        ghost var N0 := N;
        N := VisitNeighbour(u, out[i], anc, base, S0, stack0, cno0, par0, N, c);
        forall j | 0 <= j <= i
          ensures out[j] in S0 + {u} + Elems(N)
        {
          if j < i {
            assert out[j] in S0 + {u} + Elems(N0);
          }
        }
        i := i + 1;
      }
    }

    /** One step of the walk over u's out-edges: visits v if it is still unseen. */
    method VisitNeighbour(u: nat, v: nat, ghost anc: seq<nat>, ghost base: nat, ghost S0: set<nat>,
                          ghost stack0: seq<nat>, ghost cno0: seq<int>, ghost par0: seq<Option<nat>>,
                          ghost N: seq<nat>, ghost c: int) returns (ghost N': seq<nat>)
      requires Valid() && Edge(g.adj, u, v) && statics.componentNumber == c
      requires VisitingV(g.n, g.adj, seen[..], parent[..], statics.vertexStack, u, anc, base, S0, stack0, par0, N)
      requires cno[..] == Mark(cno0, Elems(N) + {u}, c)
      modifies seen, parent, cno, statics`vertexStack
      ensures VisitingV(g.n, g.adj, seen[..], parent[..], statics.vertexStack, u, anc, base, S0, stack0, par0, N')
      ensures cno[..] == Mark(cno0, Elems(N') + {u}, c)
      ensures Elems(N) <= Elems(N') && v in S0 + {u} + Elems(N')
      ensures Unseen() <= old(Unseen())
      ensures !old(seen[v]) ==> parent[v] == Some(u)
      decreases Unseen(), 1
    {
      N' := N;
      assert v < g.n;
      if !seen[v] {
        DescendV(g.n, g.adj, seen[..], parent[..], statics.vertexStack, u, anc, base, S0, stack0, par0, N, v);
        ghost var flags := seen[..];
        ghost var par := parent[..];
        ghost var cnos := cno[..];
        ghost var stack := statics.vertexStack;
        parent[v] := Some(u);
        assert parent[..] == par[v := Some(u)];
        assert seen[..] == flags && cno[..] == cnos;
        ghost var M := DfsVisit(v, anc + [u], base);
        ReturnV(g.n, g.adj, flags, par, stack, seen[..], parent[..], statics.vertexStack,
                u, anc, base, S0, stack0, par0, N, v, M);
        MarkTwice(cno0, Elems(N) + {u}, Elems(M), c);
        ElemsAppend(N, M);
        ElemsJoin(N, M, u);
        N' := N + M;
      } else {
        assert v in Seen();
      }
    }

    /** `createFinishlist`: pops the whole shared stack into a list, last
        pushed first. */
    method CreateFinishList() returns (finishList: seq<nat>)
      modifies statics`vertexStack
      ensures finishList == Reverse(old(statics.vertexStack))
      ensures statics.vertexStack == []
    {
      finishList := [];
      while statics.vertexStack != []
        invariant finishList + Reverse(statics.vertexStack) == Reverse(old(statics.vertexStack))
        decreases |statics.vertexStack|
      {
        var stack := statics.vertexStack;
        var top := stack[|stack| - 1];
        ReverseSnoc(stack);
        AppendAssoc(finishList, [top], Reverse(stack[..|stack| - 1]));
        statics.vertexStack := stack[..|stack| - 1];
        finishList := finishList + [top];
      }
    }

    /** `checkDirected`. */
    static function CheckDirected(g: Graph): (r: bool)
      reads g
      ensures r == g.directed
    {
      g.directed
    }

    /** The private `depthFirstSearch`: a traversal over every vertex in
        order, then a fresh instance if the shared stack holds exactly one
        entry per vertex and null otherwise. */
    method DepthFirstSearch() returns (output: StronglyConnectedComponents?, ghost F: seq<nat>)
      requires Valid()
      modifies seen, parent, cno, statics
      ensures statics.vertexStack == old(statics.vertexStack) + F
      ensures IsPermutation(F, g.n) && FinishOrder(g.adj, F)
      ensures output != null <==> old(statics.vertexStack) == []
      ensures output != null ==> fresh(output) && output.Valid() && output.g == g && output.statics == statics
    {
      var vertexCount := g.n;
      ghost var trees;
      F, trees := Dfs(Vertices(g.n));
      if |statics.vertexStack| == vertexCount {
        output := new StronglyConnectedComponents(g, statics);
      } else {
        output := null;
      }
    }

    /** The static `depthFirstSearch(g)`: the same on a fresh instance. */
    static method DepthFirstSearchOf(g: Graph, statics: SccStatics)
      returns (output: StronglyConnectedComponents?, ghost F: seq<nat>)
      requires g.Valid()
      modifies statics
      ensures statics.vertexStack == old(statics.vertexStack) + F
      ensures IsPermutation(F, g.n) && FinishOrder(g.adj, F)
      ensures output != null <==> old(statics.vertexStack) == []
      ensures output != null ==> fresh(output) && output.Valid() && output.g == g && output.statics == statics
    {
      var d := new StronglyConnectedComponents(g, statics);
      output, F := d.DepthFirstSearch();
    }

    /** `topologicalOrder1`: null for an undirected graph; otherwise the
        traversal's pushes read from the last one, or null when the shared
        stack was not empty beforehand.  Nothing here looks for cycles, so
        a directed graph with a cycle still gets a list. */
    method TopologicalOrder1() returns (r: Option<seq<nat>>, ghost F: seq<nat>)
      requires Valid()
      modifies statics
      ensures !g.directed ==> r == None && statics.vertexStack == old(statics.vertexStack)
      ensures g.directed ==> IsPermutation(F, g.n) && FinishOrder(g.adj, F)
      ensures g.directed && old(statics.vertexStack) == [] ==> r == Some(Reverse(F)) && statics.vertexStack == []
      ensures g.directed && old(statics.vertexStack) != [] ==>
                r == None && statics.vertexStack == old(statics.vertexStack) + F
    {
      F := [];
      if !CheckDirected(g) {
        return None, F;
      }
      var output;
      output, F := DepthFirstSearchOf(g, statics);
      if output == null {
        return None, F;
      }
      assert statics.vertexStack == F;
      var finishList := output.CreateFinishList();
      r := Some(finishList);
    }

    /** The static `topologicalOrder1(g)`: the same on a fresh instance. */
    static method TopologicalOrder1Of(g: Graph, statics: SccStatics) returns (r: Option<seq<nat>>, ghost F: seq<nat>)
      requires g.Valid()
      modifies statics
      ensures !g.directed ==> r == None && statics.vertexStack == old(statics.vertexStack)
      ensures g.directed ==> IsPermutation(F, g.n) && FinishOrder(g.adj, F)
      ensures g.directed && old(statics.vertexStack) == [] ==> r == Some(Reverse(F)) && statics.vertexStack == []
      ensures g.directed && old(statics.vertexStack) != [] ==>
                r == None && statics.vertexStack == old(statics.vertexStack) + F
    {
      var d := new StronglyConnectedComponents(g, statics);
      r, F := d.TopologicalOrder1();
    }

    /** `topologicalOrder1` with the check its documentation promises: the
        list is returned only if every edge goes forwards in it, so a
        directed graph gets a list exactly when it has no cycle. */
    method TopologicalOrderChecked() returns (r: Option<seq<nat>>)
      requires Valid()
      modifies statics
      ensures !g.directed ==> r == None
      ensures g.directed && old(statics.vertexStack) == [] ==> (r.Some? <==> Acyclic(g.adj))
      ensures r.Some? ==> IsPermutation(r.value, g.n) && IsTopologicalOrder(g.adj, r.value)
    {
      ghost var F;
      r, F := TopologicalOrder1();
      if r.Some? {
        ReversePermutation(F, g.n);
        if Acyclic(g.adj) {
          ReverseIsTopological(g.adj, F);
        } else {
          CyclicHasNoOrder(g.n, g.adj, r.value);
        }
        if !IsTopologicalOrder(g.adj, r.value) {
          r := None;
        }
      }
    }

    /** `stronglyConnectedComponents(g)`: a traversal of g, its pushes popped
        into a list, then a traversal of the reversed graph in the order of
        that list, which numbers the vertices; g is reversed back at the end.
        Two vertices get the same number exactly when each reaches the other,
        and the last number is the count of strongly connected components.
        Entries left on the shared stack by earlier calls are read as
        vertices of g. */
    static method StronglyConnectedComponentsOf(g: Graph, statics: SccStatics) returns (d: StronglyConnectedComponents)
      requires g.Valid()
      requires forall k :: 0 <= k < |statics.vertexStack| ==> statics.vertexStack[k] < g.n
      modifies g, statics
      ensures fresh(d) && d.Valid() && d.g == g && d.statics == statics
      ensures g.adj == old(g.adj) && g.radj == old(g.radj)
      ensures forall u, v :: 0 <= u < g.n && 0 <= v < g.n ==> (d.cno[u] == d.cno[v] <==> Mutual(g.adj, u, v))
      ensures forall v :: 0 <= v < g.n ==> 1 <= d.cno[v] <= statics.componentNumber
      ensures statics.componentNumber == |Components(g.adj)|
      ensures IsPermutation(statics.vertexStack, g.n)
    {
      d := new StronglyConnectedComponents(g, statics);
      ghost var stale, adj := statics.vertexStack, g.adj;
      ghost var F1, trees1 := d.Dfs(Vertices(g.n));
      var list := d.CreateFinishList();
      ListOfFinish(g.n, stale, F1, list);
      g.ReverseGraph();
      ghost var adjT := g.adj;
      ghost var F2, trees := d.Dfs(list);
      ghost var cnos := d.cno[..];
      KosarajuNumbers(g.n, adj, adjT, F1, list, d.parent[..], cnos, F2, trees);
      g.ReverseGraph();
      assert d.cno[..] == cnos;
    }

    /** Two calls of `stronglyConnectedComponents(g)` in a row: the entries the
        first leaves on the shared stack are vertices of g, so the second call
        is well defined and groups the vertices exactly as the first. */
    static method StronglyConnectedComponentsTwice(g: Graph, statics: SccStatics)
      returns (d1: StronglyConnectedComponents, d2: StronglyConnectedComponents)
      requires g.Valid()
      requires forall k :: 0 <= k < |statics.vertexStack| ==> statics.vertexStack[k] < g.n
      modifies g, statics
      ensures fresh(d1) && fresh(d2) && d1.cno.Length == g.n && d2.cno.Length == g.n
      ensures g.adj == old(g.adj) && g.radj == old(g.radj)
      ensures forall u, v :: 0 <= u < g.n && 0 <= v < g.n ==> (d1.cno[u] == d1.cno[v] <==> d2.cno[u] == d2.cno[v])
    {
      d1 := StronglyConnectedComponentsOf(g, statics);
      forall k | 0 <= k < |statics.vertexStack|
        ensures statics.vertexStack[k] < g.n
      {
        assert statics.vertexStack[k] in statics.vertexStack;
      }
      d2 := StronglyConnectedComponentsOf(g, statics);
    }
  }
}
