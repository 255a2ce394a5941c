/**
  The three moments of one depth-first visit, stated on values so that both
  traversal classes share them: entering a vertex, walking its out-edges,
  and having pushed it.  `flags`, `par` and `stack` are the seen flags, the
  parent records and the finish stack; `anc` is the chain of visits in
  progress and `base` where the current traversal's pushes begin.
*/
module VisitTheory {
  import opened Graphs
  import opened Paths
  import opened DfsTheory

  /** What a visit of u may assume when it starts. */
  ghost predicate EntryV(n: nat, adj: seq<seq<nat>>, flags: seq<bool>, par: seq<Option<nat>>, stack: seq<nat>,
                         u: nat, anc: seq<nat>, base: nat)
  {
    && WellFormed(n, adj) && |flags| == n && |par| == n
    && u < n && !flags[u] && base <= |stack|
    && Bookkeeping(n, adj, SetOf(flags), stack[base..], anc)
    && (anc != [] ==> Edge(adj, anc[|anc| - 1], u))
    && GreyParents(par, anc) && (par[u].Some? ==> par[u].value in anc)
    && TreeEdgesBefore(par, stack[base..])
  }

  /** While u's out-edges are walked: S0, stack0 and par0 are the seen set,
      stack and parents when the visit began, N the vertices pushed since. */
  ghost predicate VisitingV(n: nat, adj: seq<seq<nat>>, flags: seq<bool>, par: seq<Option<nat>>, stack: seq<nat>,
                            u: nat, anc: seq<nat>, base: nat, S0: set<nat>, stack0: seq<nat>,
                            par0: seq<Option<nat>>, N: seq<nat>)
  {
    && WellFormed(n, adj) && |flags| == n && |par| == n && |par0| == n
    && u < n && base <= |stack0|
    && stack == stack0 + N
    && SetOf(flags) == S0 + {u} + Elems(N)
    && Elems(N) <= WhiteSet(adj, S0, u) && u !in Elems(N) && u !in S0
    && Bookkeeping(n, adj, SetOf(flags), stack[base..], anc + [u])
    && (forall v :: 0 <= v < n && v !in Elems(N) ==> par[v] == par0[v])
    && (forall v :: v in Elems(N) ==>
          v < n && par[v].Some? && par[v].value in Elems(N) + {u} && Edge(adj, par[v].value, v))
    && GreyParents(par, anc + [u])
    && TreeEdgesBefore(par, stack[base..])
    && GreyParents(par0, anc) && (par0[u].Some? ==> par0[u].value in anc)
  }

  /** What a finished visit of u guarantees: it pushed exactly the vertices
      reachable from u without passing through S0, u last, each with a
      parent inside the visit along a real edge, and the push order is
      still a finish order. */
  ghost predicate VisitedV(n: nat, adj: seq<seq<nat>>, flags: seq<bool>, par: seq<Option<nat>>, stack: seq<nat>,
                           u: nat, anc: seq<nat>, base: nat, S0: set<nat>, stack0: seq<nat>,
                           par0: seq<Option<nat>>, N: seq<nat>)
  {
    && |flags| == n && |par| == n && |par0| == n && base <= |stack0|
    && stack == stack0 + N
    && Elems(N) == WhiteSet(adj, S0, u) && N != [] && N[|N| - 1] == u
    && SetOf(flags) == S0 + Elems(N)
    && Bookkeeping(n, adj, SetOf(flags), stack[base..], anc)
    && (forall v :: 0 <= v < n && (v !in Elems(N) || v == u) ==> par[v] == par0[v])
    && (forall v :: v in Elems(N) && v != u ==>
          v < n && par[v].Some? && par[v].value in Elems(N) && Edge(adj, par[v].value, v))
    && GreyParents(par, anc)
    && TreeEdgesBefore(par, stack[base..])
  }

  /** Marking u seen starts the walk with nothing pushed. */
  lemma EnterV(n: nat, adj: seq<seq<nat>>, flags: seq<bool>, par: seq<Option<nat>>, stack: seq<nat>,
               u: nat, anc: seq<nat>, base: nat)
    requires EntryV(n, adj, flags, par, stack, u, anc, base)
    ensures VisitingV(n, adj, flags[u := true], par, stack, u, anc, base, SetOf(flags), stack, par, [])
    ensures UnsetOf(flags[u := true]) == UnsetOf(flags) - {u}
  {
    EnterStep(n, adj, SetOf(flags), stack[base..], anc, u);
    SetOfUpdate(flags, u);
    assert stack + [] == stack;
    assert Elems([]) == {};
  }

  /** Before visiting an unseen out-neighbour v, recording u as its parent
      gives v what its own visit assumes. */
  lemma DescendV(n: nat, adj: seq<seq<nat>>, flags: seq<bool>, par: seq<Option<nat>>, stack: seq<nat>,
                 u: nat, anc: seq<nat>, base: nat, S0: set<nat>, stack0: seq<nat>,
                 par0: seq<Option<nat>>, N: seq<nat>, v: nat)
    requires VisitingV(n, adj, flags, par, stack, u, anc, base, S0, stack0, par0, N)
    requires Edge(adj, u, v) && v < n && !flags[v]
    ensures EntryV(n, adj, flags, par[v := Some(u)], stack, v, anc + [u], base)
  {
    var A := anc + [u];
    assert v !in SetOf(flags);
    assert v !in A;
    assert A[|A| - 1] == u;
    SetParentStep(par, stack[base..], v, Some(u));
  }

  /** After the visit of v returns, the walk over u's out-edges goes on with
      v's visit appended to what u has pushed. */
  lemma ReturnV(n: nat, adj: seq<seq<nat>>, flags: seq<bool>, par: seq<Option<nat>>, stack: seq<nat>,
                flags': seq<bool>, par': seq<Option<nat>>, stack': seq<nat>,
                u: nat, anc: seq<nat>, base: nat, S0: set<nat>, stack0: seq<nat>,
                par0: seq<Option<nat>>, N: seq<nat>, v: nat, M: seq<nat>)
    requires VisitingV(n, adj, flags, par, stack, u, anc, base, S0, stack0, par0, N)
    requires Edge(adj, u, v) && v < n && !flags[v]
    requires VisitedV(n, adj, flags', par', stack', v, anc + [u], base, SetOf(flags), stack, par[v := Some(u)], M)
    ensures VisitingV(n, adj, flags', par', stack', u, anc, base, S0, stack0, par0, N + M)
    ensures Elems(N) <= Elems(N + M) && v in Elems(N + M)
    ensures UnsetOf(flags') <= UnsetOf(flags)
  {
    var Sc := SetOf(flags);
    AppendAssoc(stack0, N, M);
    ElemsAppend(N, M);
    WhiteSubset(adj, S0, Sc, u, v);
    WhiteSetOutside(adj, Sc, v);
    UnsetShrinks(flags, flags');
    assert v in Elems(M);
    forall w | 0 <= w < n && w !in Elems(N + M)
      ensures par'[w] == par0[w]
    {
      assert w != v;
    }
    forall w | w in Elems(N + M)
      ensures w < n && par'[w].Some? && par'[w].value in Elems(N + M) + {u} && Edge(adj, par'[w].value, w)
    {
      if w in Elems(N) {
        assert w in Sc && w != v;
        assert par'[w] == par[w];
      }
    }
  }

  /** Pushing u once all its out-neighbours are seen completes the visit. */
  lemma FinishV(n: nat, adj: seq<seq<nat>>, flags: seq<bool>, par: seq<Option<nat>>, stack: seq<nat>,
                u: nat, anc: seq<nat>, base: nat, S0: set<nat>, stack0: seq<nat>,
                par0: seq<Option<nat>>, N: seq<nat>)
    requires VisitingV(n, adj, flags, par, stack, u, anc, base, S0, stack0, par0, N)
    requires forall x :: Edge(adj, u, x) ==> x in S0 + {u} + Elems(N)
    ensures VisitedV(n, adj, flags, par, stack + [u], u, anc, base, S0, stack0, par0, N + [u])
  {
    var Q := stack[base..];
    FinishWhite(n, adj, SetOf(flags), stack, u, base, S0, stack0, N);
    PushStep(n, adj, SetOf(flags), Q, anc, u);
    PushParentStep(par, Q, u);
    FinishParents(n, adj, SetOf(flags), par, stack, u, anc, base, stack0, par0, N);
    assert (stack + [u])[base..] == Q + [u];
    ElemsAppend(N, [u]);
    AppendAssoc(stack0, N, [u]);
  }

  /** The vertices pushed during u's visit, with u, are its white set. */
  lemma FinishWhite(n: nat, adj: seq<seq<nat>>, seen: set<nat>, stack: seq<nat>,
                    u: nat, base: nat, S0: set<nat>, stack0: seq<nat>, N: seq<nat>)
    requires WellFormed(n, adj) && u < n && base <= |stack0| && stack == stack0 + N
    requires seen == S0 + {u} + Elems(N) && u !in S0
    requires Elems(N) <= WhiteSet(adj, S0, u)
    requires Closed(adj, seen, stack[base..])
    requires forall x :: Edge(adj, u, x) ==> x in seen
    ensures Elems(N) + {u} == WhiteSet(adj, S0, u)
  {
    WhiteReachSelf(adj, S0, u);
    SliceAppend(stack0, N, base);
    assert forall x :: x in N ==> x in stack[base..];
    CloseVisit(adj, S0, seen, stack[base..], N, u);
  }

  /** The chain of visits in progress keeps its parents inside the chain once u is pushed. */
  lemma FinishParents(n: nat, adj: seq<seq<nat>>, seen: set<nat>, par: seq<Option<nat>>, stack: seq<nat>,
                      u: nat, anc: seq<nat>, base: nat, stack0: seq<nat>, par0: seq<Option<nat>>, N: seq<nat>)
    requires |par| == n && |par0| == n && base <= |stack0| && stack == stack0 + N
    requires Bookkeeping(n, adj, seen, stack[base..], anc + [u])
    requires forall v :: 0 <= v < n && v !in Elems(N) ==> par[v] == par0[v]
    requires u < n && u !in Elems(N) && GreyParents(par0, anc) && (par0[u].Some? ==> par0[u].value in anc)
    ensures GreyParents(par, anc)
    ensures par[u].Some? ==> par[u].value in anc
  {
    SliceAppend(stack0, N, base);
    forall x | x in anc && x < |par| && par[x].Some?
      ensures par[x].value in anc
    {
      assert x in anc + [u];
      assert x !in N;
    }
  }

  /** Before the root loop reaches order[i]: every earlier entry is seen,
      an unseen vertex has no parent, and what this traversal pushed
      (stack[base..]) is a finish order closed under edges. */
  ghost predicate RootsV(n: nat, adj: seq<seq<nat>>, order: seq<nat>, i: nat, flags: seq<bool>,
                         par: seq<Option<nat>>, stack: seq<nat>, base: nat)
  {
    && WellFormed(n, adj) && |flags| == n && |par| == n && i <= |order| && base <= |stack|
    && (forall k :: 0 <= k < |order| ==> order[k] < n)
    && Bookkeeping(n, adj, SetOf(flags), stack[base..], [])
    && (forall j :: 0 <= j < i ==> flags[order[j]])
    && (forall v :: 0 <= v < n && !flags[v] ==> par[v] == None)
    && TreeEdgesBefore(par, stack[base..])
  }

  /** A traversal starts with nothing seen, no parents and nothing pushed. */
  lemma RootsInit(n: nat, adj: seq<seq<nat>>, order: seq<nat>, flags: seq<bool>, par: seq<Option<nat>>,
                  stack: seq<nat>)
    requires WellFormed(n, adj) && |flags| == n && |par| == n
    requires forall k :: 0 <= k < |order| ==> order[k] < n
    requires forall v :: 0 <= v < n ==> !flags[v] && par[v] == None
    ensures SetOf(flags) == {}
    ensures RootsV(n, adj, order, 0, flags, par, stack, |stack|)
  {
    assert stack[|stack|..] == [];
    assert SetOf(flags) == {};
  }

  /** An unseen entry of the root loop starts a visit with no visits in progress. */
  lemma RootEntry(n: nat, adj: seq<seq<nat>>, order: seq<nat>, i: nat, flags: seq<bool>,
                  par: seq<Option<nat>>, stack: seq<nat>, base: nat)
    requires RootsV(n, adj, order, i, flags, par, stack, base) && i < |order| && !flags[order[i]]
    ensures EntryV(n, adj, flags, par, stack, order[i], [], base)
  {
  }

  /** The visit started at order[i] moves the root loop on by one entry. */
  lemma RootVisited(n: nat, adj: seq<seq<nat>>, order: seq<nat>, i: nat, flags: seq<bool>,
                    par: seq<Option<nat>>, stack: seq<nat>, base: nat,
                    flags': seq<bool>, par': seq<Option<nat>>, stack': seq<nat>, M: seq<nat>)
    requires RootsV(n, adj, order, i, flags, par, stack, base) && i < |order| && !flags[order[i]]
    requires VisitedV(n, adj, flags', par', stack', order[i], [], base, SetOf(flags), stack, par, M)
    ensures RootsV(n, adj, order, i + 1, flags', par', stack', base)
  {
    assert order[i] in Elems(M);
    assert SetOf(flags) <= SetOf(flags');
    forall j | 0 <= j <= i
      ensures flags'[order[j]]
    {
      var x := order[j];
      if j < i {
        assert x in SetOf(flags);
      }
      assert x in SetOf(flags');
    }
    forall v | 0 <= v < n && !flags'[v]
      ensures par'[v] == None
    {
      assert v !in SetOf(flags');
      assert v !in Elems(M) && !flags[v];
    }
  }

  /** An entry already seen leaves the root loop's facts as they are. */
  lemma RootSkip(n: nat, adj: seq<seq<nat>>, order: seq<nat>, i: nat, flags: seq<bool>,
                 par: seq<Option<nat>>, stack: seq<nat>, base: nat)
    requires RootsV(n, adj, order, i, flags, par, stack, base) && i < |order| && flags[order[i]]
    ensures RootsV(n, adj, order, i + 1, flags, par, stack, base)
  {
  }

  /** Once the root loop has passed every vertex, this traversal pushed each vertex once, in a finish order. */
  lemma RootsDone(n: nat, adj: seq<seq<nat>>, order: seq<nat>, flags: seq<bool>,
                  par: seq<Option<nat>>, stack: seq<nat>, base: nat)
    requires RootsV(n, adj, order, |order|, flags, par, stack, base)
    requires forall v :: 0 <= v < n ==> v in order
    ensures IsPermutation(stack[base..], n) && FinishOrder(adj, stack[base..])
    ensures forall v :: 0 <= v < n ==> flags[v]
  {
    var F := stack[base..];
    forall v | 0 <= v < n
      ensures flags[v] && v in F
    {
      assert v in order;
      var j :| 0 <= j < |order| && order[j] == v;
      assert flags[order[j]];
      assert v in SetOf(flags);
    }
    DistinctCovering(F, n);
  }
}
