/**
  What a depth-first traversal computes, stated on values.

  A traversal keeps a set of seen vertices, a push (finish) sequence P and the
  chain `anc` of vertices whose visit has begun and not ended (the recursion
  stack).  `Bookkeeping` is the invariant that ties them together; `Forest`
  says which vertices each root of a traversal collects; `FinishOrder` is the
  property of the push sequence that the topological order and the two-pass
  component algorithm rely on.
*/
module DfsTheory {
  import opened Graphs
  import opened Paths

  /** When F[i] was pushed, every vertex it reaches had been pushed already,
      unless some vertex of F[i]'s own component was still unfinished. */
  ghost predicate FinishedAt(adj: seq<seq<nat>>, F: seq<nat>, i: nat)
    requires i < |F|
  {
    forall z :: Reach(adj, F[i], z) ==>
      z in F[..i + 1] || exists a :: a !in F[..i + 1] && Mutual(adj, a, F[i])
  }

  ghost predicate FinishOrder(adj: seq<seq<nat>>, F: seq<nat>)
  {
    forall i :: 0 <= i < |F| ==> FinishedAt(adj, F, i)
  }

  /** Every out-neighbour of a pushed vertex has been seen. */
  ghost predicate Closed(adj: seq<seq<nat>>, seen: set<nat>, P: seq<nat>)
  {
    forall j, x :: 0 <= j < |P| && Edge(adj, P[j], x) ==> x in seen
  }

  /** The state of a traversal: the seen vertices are exactly the pushed ones
      and the grey ones on the recursion stack `anc`, which is a walk. */
  ghost predicate Bookkeeping(n: nat, adj: seq<seq<nat>>, seen: set<nat>, P: seq<nat>, anc: seq<nat>)
  {
    && Distinct(P)
    && Distinct(anc)
    && (forall x :: x in P ==> x !in anc)
    && (forall x :: x in seen <==> x in P || x in anc)
    && (forall x :: x in seen ==> x < n)
    && Closed(adj, seen, P)
    && FinishOrder(adj, P)
    && (anc != [] ==> IsPath(adj, anc))
  }

  /** Following edges out of pushed vertices either stays among the pushed ones or
      meets a grey vertex, which lies in the same component as the vertex u. */
  lemma {:induction false} ReachFinished(adj: seq<seq<nat>>, seen: set<nat>, P: seq<nat>, anc: seq<nat>, u: nat, p: seq<nat>)
    requires IsPath(adj, p) && p[0] in P && Reach(adj, u, p[0])
    requires Closed(adj, seen, P)
    requires forall x :: x in seen ==> x in P || x in anc
    requires forall a :: a in anc ==> Reach(adj, a, u) && a !in P
    ensures p[|p| - 1] in P || exists a :: a !in P && Mutual(adj, a, u)
    decreases |p|
  {
    if |p| > 1 {
      assert Edge(adj, p[0], p[1]);
      var j :| 0 <= j < |P| && P[j] == p[0];
      assert p[1] in seen;
      ReachEdge(adj, u, p[0], p[1]);
      if p[1] in P {
        PathSlice(adj, p, 1, |p|);
        ReachFinished(adj, seen, P, anc, u, p[1..]);
      } else {
        assert Mutual(adj, p[1], u);
      }
    }
  }

  /** Finishing the top grey vertex u, once all its out-neighbours are seen,
      keeps the bookkeeping. */
  lemma PushStep(n: nat, adj: seq<seq<nat>>, seen: set<nat>, P: seq<nat>, anc: seq<nat>, u: nat)
    requires Bookkeeping(n, adj, seen, P, anc + [u])
    requires forall x :: Edge(adj, u, x) ==> x in seen
    ensures Bookkeeping(n, adj, seen, P + [u], anc)
  {
    var A := anc + [u];
    var Q := P + [u];
    assert u in A;
    DistinctSnoc(P, u);
    assert Distinct(anc) by {
      forall i, j | 0 <= i < j < |anc| ensures anc[i] != anc[j] {
        assert anc[i] == A[i] && anc[j] == A[j];
      }
    }
    assert forall x :: x in anc ==> x in A;
    forall a | a in anc
      ensures Reach(adj, a, u) && a !in Q
    {
      var m :| 0 <= m < |anc| && anc[m] == a;
      assert A[m] == a && A[|A| - 1] == u;
      PathSlice(adj, A, m, |A|);
      assert A[m..][0] == a && A[m..][|A[m..]| - 1] == u;
      assert a != u;
    }
    assert Closed(adj, seen, Q) by {
      forall j, x | 0 <= j < |Q| && Edge(adj, Q[j], x) ensures x in seen {
        if j < |P| { assert Q[j] == P[j]; }
      }
    }
    forall i | 0 <= i < |Q|
      ensures FinishedAt(adj, Q, i)
    {
      if i < |P| {
        assert Q[..i + 1] == P[..i + 1] && Q[i] == P[i];
        assert FinishedAt(adj, P, i);
      } else {
        assert Q[..i + 1] == Q && Q[i] == u;
        forall z | Reach(adj, u, z)
          ensures z in Q || exists a :: a !in Q && Mutual(adj, a, u)
        {
          var p :| IsPath(adj, p) && p[0] == u && p[|p| - 1] == z;
          ReachRefl(adj, u);
          ReachFinished(adj, seen, Q, anc, u, p);
        }
      }
    }
    if anc != [] {
      PathSlice(adj, A, 0, |anc|);
      assert A[..|anc|] == anc;
    }
  }

  /** A vertex reachable from a neighbour v of u along unseen vertices is
      reachable from u along vertices that were unseen when u was entered. */
  lemma WhiteExtend(adj: seq<seq<nat>>, S0: set<nat>, S1: set<nat>, u: nat, v: nat, z: nat)
    requires u !in S0 && S0 <= S1 && Edge(adj, u, v) && WhiteReach(adj, S1, v, z)
    ensures WhiteReach(adj, S0, u, z)
  {
    var p :| IsPath(adj, p) && p[0] == v && p[|p| - 1] == z && Avoids(p, S1);
    var q := [u] + p;
    forall k | 0 <= k < |q| - 1
      ensures Edge(adj, q[k], q[k + 1])
    {
      if k > 0 {
        assert q[k] == p[k - 1] && q[k + 1] == p[k];
      }
    }
    forall k | 0 <= k < |q|
      ensures q[k] !in S0
    {
      if k > 0 {
        assert q[k] == p[k - 1];
      }
    }
    assert IsPath(adj, q) && q[0] == u && q[|q| - 1] == z && Avoids(q, S0);
  }

  lemma {:induction false} WhitePathInside(adj: seq<seq<nat>>, S0: set<nat>, N: set<nat>, p: seq<nat>)
    requires IsPath(adj, p) && Avoids(p, S0) && p[0] in N
    requires forall w, x :: w in N && Edge(adj, w, x) ==> x in S0 || x in N
    ensures p[|p| - 1] in N
    decreases |p|
  {
    if |p| > 1 {
      assert Edge(adj, p[0], p[1]);
      assert p[1] !in S0;
      PathSlice(adj, p, 1, |p|);
      WhitePathInside(adj, S0, N, p[1..]);
    }
  }

  /** A set of newly seen vertices whose out-neighbours are all seen contains
      everything reachable from its first vertex along unseen vertices. */
  lemma WhiteClosed(adj: seq<seq<nat>>, S0: set<nat>, N: set<nat>, u: nat)
    requires u in N
    requires forall w, x :: w in N && Edge(adj, w, x) ==> x in S0 || x in N
    ensures forall z :: WhiteReach(adj, S0, u, z) ==> z in N
  {
    forall z | WhiteReach(adj, S0, u, z)
      ensures z in N
    {
      var p :| IsPath(adj, p) && p[0] == u && p[|p| - 1] == z && Avoids(p, S0);
      WhitePathInside(adj, S0, N, p);
    }
  }

  lemma WhiteReachSelf(adj: seq<seq<nat>>, S: set<nat>, r: nat)
    requires r !in S && r < |adj|
    ensures WhiteReach(adj, S, r, r) && r in WhiteSet(adj, S, r)
  {
    var p := [r];
    assert IsPath(adj, p) && p[0] == r && p[|p| - 1] == r && Avoids(p, S);
  }

  /** One depth-first tree: the vertex it started from and the vertices it collected. */
  datatype Tree = Tree(root: nat, members: set<nat>)

  /** The trees a traversal grows when it starts a visit at every vertex of
      `order` that is not yet seen, S being seen at the outset. */
  ghost function Forest(adj: seq<seq<nat>>, order: seq<nat>, S: set<nat>): seq<Tree>
    decreases |order|
  {
    if order == [] then []
    else if order[0] in S then Forest(adj, order[1..], S)
    else
      var t := Tree(order[0], WhiteSet(adj, S, order[0]));
      [t] + Forest(adj, order[1..], S + t.members)
  }

  /** The forest over order[i..] starts with the tree of order[i] when that vertex is unseen. */
  lemma ForestNext(adj: seq<seq<nat>>, order: seq<nat>, i: nat, S: set<nat>)
    requires i < |order| && order[i] !in S
    ensures Forest(adj, order[i..], S) ==
              [Tree(order[i], WhiteSet(adj, S, order[i]))] + Forest(adj, order[i + 1..], S + WhiteSet(adj, S, order[i]))
  {
    assert order[i..][0] == order[i] && order[i..][1..] == order[i + 1..];
  }

  /** The forest over order[i..] skips order[i] when that vertex is seen. */
  lemma ForestSkip(adj: seq<seq<nat>>, order: seq<nat>, i: nat, S: set<nat>)
    requires i < |order| && order[i] in S
    ensures Forest(adj, order[i..], S) == Forest(adj, order[i + 1..], S)
  {
    assert order[i..][0] == order[i] && order[i..][1..] == order[i + 1..];
  }

  /** Each tree holds its root, a vertex of `order` outside S, and no vertex of S. */
  ghost predicate RootedOutside(fo: seq<Tree>, order: seq<nat>, S: set<nat>)
  {
    forall k :: 0 <= k < |fo| ==>
      fo[k].members !! S && fo[k].root in fo[k].members && fo[k].root in order && fo[k].root !in S
  }

  ghost predicate PairwiseDisjoint(fo: seq<Tree>)
  {
    forall k, l :: 0 <= k < l < |fo| ==> fo[k].members !! fo[l].members
  }

  /** Every vertex of `order` is in S or in some tree. */
  ghost predicate Covers(fo: seq<Tree>, order: seq<nat>, S: set<nat>)
  {
    forall x :: x in order ==> x in S || exists k :: 0 <= k < |fo| && x in fo[k].members
  }

  lemma {:induction false} ForestTrees(adj: seq<seq<nat>>, order: seq<nat>, S: set<nat>)
    requires forall x :: x in order ==> x < |adj|
    ensures RootedOutside(Forest(adj, order, S), order, S)
    decreases |order|
  {
    if order != [] {
      var r := order[0];
      var rest := order[1..];
      assert order == [r] + rest;
      assert r in order;
      assert forall x :: x in rest ==> x in order;
      if r in S {
        assert Forest(adj, order, S) == Forest(adj, rest, S);
        ForestTrees(adj, rest, S);
      } else {
        var t := Tree(r, WhiteSet(adj, S, r));
        var tail := Forest(adj, rest, S + t.members);
        assert Forest(adj, order, S) == [t] + tail;
        ForestTrees(adj, rest, S + t.members);
        WhiteReachSelf(adj, S, r);
        forall z | z in t.members
          ensures z !in S
        {
          var p :| IsPath(adj, p) && p[0] == r && p[|p| - 1] == z && Avoids(p, S);
        }
        forall k | 0 <= k < |tail|
          ensures tail[k].root in order
        {
          assert tail[k].root in rest;
        }
      }
    }
  }

  lemma {:induction false} ForestDisjoint(adj: seq<seq<nat>>, order: seq<nat>, S: set<nat>)
    requires forall x :: x in order ==> x < |adj|
    ensures PairwiseDisjoint(Forest(adj, order, S))
    decreases |order|
  {
    if order != [] {
      var r := order[0];
      var rest := order[1..];
      assert forall x :: x in rest ==> x in order;
      if r in S {
        assert Forest(adj, order, S) == Forest(adj, rest, S);
        ForestDisjoint(adj, rest, S);
      } else {
        var t := Tree(r, WhiteSet(adj, S, r));
        var tail := Forest(adj, rest, S + t.members);
        assert Forest(adj, order, S) == [t] + tail;
        ForestDisjoint(adj, rest, S + t.members);
        ForestTrees(adj, rest, S + t.members);
        ConsDisjoint(t, tail, rest, S + t.members);
      }
    }
  }

  /** A tree whose members are all seen before the rest of a disjoint forest is grown keeps it disjoint. */
  lemma ConsDisjoint(t: Tree, tail: seq<Tree>, order: seq<nat>, T: set<nat>)
    requires PairwiseDisjoint(tail) && RootedOutside(tail, order, T) && t.members <= T
    ensures PairwiseDisjoint([t] + tail)
  {
    var fo := [t] + tail;
    forall k, l | 0 <= k < l < |fo|
      ensures fo[k].members !! fo[l].members
    {
      assert fo[l] == tail[l - 1];
      if k > 0 {
        assert fo[k] == tail[k - 1];
      }
    }
  }

  lemma {:induction false} ForestCovers(adj: seq<seq<nat>>, order: seq<nat>, S: set<nat>)
    requires forall x :: x in order ==> x < |adj|
    ensures Covers(Forest(adj, order, S), order, S)
    decreases |order|
  {
    if order != [] {
      var r := order[0];
      var rest := order[1..];
      assert order == [r] + rest;
      assert r in order;
      assert forall x :: x in rest ==> x in order;
      if r in S {
        assert Forest(adj, order, S) == Forest(adj, rest, S);
        ForestCovers(adj, rest, S);
      } else {
        var t := Tree(r, WhiteSet(adj, S, r));
        var S' := S + t.members;
        ForestCovers(adj, rest, S');
        WhiteReachSelf(adj, S, r);
        var tail := Forest(adj, rest, S');
        var fo := [t] + tail;
        assert Forest(adj, order, S) == fo;
        forall x | x in order
          ensures x in S || exists k :: 0 <= k < |fo| && x in fo[k].members
        {
          if x in t.members {
            assert fo[0] == t;
          } else if x !in S {
            assert x in rest;
            var k :| 0 <= k < |tail| && x in tail[k].members;
            assert fo[k + 1] == tail[k];
          }
        }
      }
    }
  }

  /** An optional value: a parent pointer (absent for a root) or a list that may be null. */
  datatype Option<T> = None | Some(value: T)

  /** The vertices whose flag is set. */
  ghost function SetOf(flags: seq<bool>): set<nat>
  {
    set v: nat | v < |flags| && flags[v]
  }

  /** The vertices whose flag is clear: what is left for a traversal to visit. */
  ghost function UnsetOf(flags: seq<bool>): set<nat>
  {
    set v: nat | v < |flags| && !flags[v]
  }

  /** No vertex of a white set is in the set it avoids. */
  lemma WhiteSetOutside(adj: seq<seq<nat>>, S: set<nat>, a: nat)
    ensures forall z :: z in WhiteSet(adj, S, a) ==> z !in S
  {
    forall z | z in WhiteSet(adj, S, a)
      ensures z !in S
    {
      var p :| IsPath(adj, p) && p[0] == a && p[|p| - 1] == z && Avoids(p, S);
    }
  }

  /** Entering an unseen vertex u, reached by an edge from the top grey vertex,
      keeps the bookkeeping with u grey. */
  lemma EnterStep(n: nat, adj: seq<seq<nat>>, seen: set<nat>, P: seq<nat>, anc: seq<nat>, u: nat)
    requires Bookkeeping(n, adj, seen, P, anc) && u < n && u !in seen
    requires anc != [] ==> Edge(adj, anc[|anc| - 1], u)
    ensures Bookkeeping(n, adj, seen + {u}, P, anc + [u])
  {
    var A := anc + [u];
    assert Distinct(A) by {
      forall i, j | 0 <= i < j < |A| ensures A[i] != A[j] {
        if j < |anc| {
          assert A[i] == anc[i] && A[j] == anc[j];
        } else {
          assert A[i] == anc[i];
        }
      }
    }
    forall x | x in A
      ensures x in anc || x == u
    {
      var k :| 0 <= k < |A| && A[k] == x;
      if k < |anc| {
        assert A[k] == anc[k];
      }
    }
    forall k | 0 <= k < |A| - 1
      ensures Edge(adj, A[k], A[k + 1])
    {
      if k < |anc| - 1 {
        assert A[k] == anc[k] && A[k + 1] == anc[k + 1];
      }
    }
  }

  /** Along the recursion stack, each grey vertex with a parent has a grey parent. */
  ghost predicate GreyParents(parent: seq<Option<nat>>, anc: seq<nat>)
  {
    forall x :: x in anc && x < |parent| && parent[x].Some? ==> parent[x].value in anc
  }

  /** For every tree edge among pushed vertices, the child was pushed first. */
  ghost predicate TreeEdgesBefore(parent: seq<Option<nat>>, P: seq<nat>)
  {
    forall j, k :: 0 <= j < |P| && 0 <= k < |P| && P[j] < |parent| && parent[P[j]] == Some(P[k]) ==> j < k
  }

  /** Setting the parent of a vertex not yet pushed keeps the tree edges ordered. */
  lemma SetParentStep(parent: seq<Option<nat>>, P: seq<nat>, v: nat, w: Option<nat>)
    requires TreeEdgesBefore(parent, P) && v < |parent| && v !in P
    ensures TreeEdgesBefore(parent[v := w], P)
  {
    forall j, k | 0 <= j < |P| && 0 <= k < |P| && P[j] < |parent| && parent[v := w][P[j]] == Some(P[k])
      ensures j < k
    {
      assert P[j] != v;
    }
  }

  /** Pushing a vertex whose parent is not yet pushed keeps the tree edges ordered. */
  lemma PushParentStep(parent: seq<Option<nat>>, P: seq<nat>, u: nat)
    requires TreeEdgesBefore(parent, P) && u !in P
    requires u < |parent| && parent[u].Some? ==> parent[u].value !in P && parent[u].value != u
    ensures TreeEdgesBefore(parent, P + [u])
  {
    var Q := P + [u];
    forall j, k | 0 <= j < |Q| && 0 <= k < |Q| && Q[j] < |parent| && parent[Q[j]] == Some(Q[k])
      ensures j < k
    {
      if j < |P| && k < |P| {
        assert Q[j] == P[j] && Q[k] == P[k];
      }
    }
  }

  lemma SetOfUpdate(flags: seq<bool>, u: nat)
    requires u < |flags|
    ensures SetOf(flags[u := true]) == SetOf(flags) + {u}
    ensures UnsetOf(flags[u := true]) == UnsetOf(flags) - {u}
  {
  }

  /** A child's white set lies inside its parent's, taken when the parent was entered. */
  lemma WhiteSubset(adj: seq<seq<nat>>, S0: set<nat>, S1: set<nat>, u: nat, v: nat)
    requires u !in S0 && S0 <= S1 && Edge(adj, u, v)
    ensures WhiteSet(adj, S1, v) <= WhiteSet(adj, S0, u)
  {
    forall z | z in WhiteSet(adj, S1, v)
      ensures z in WhiteSet(adj, S0, u)
    {
      WhiteExtend(adj, S0, S1, u, v, z);
    }
  }

  /** When u's visit ends, everything u reaches along vertices unseen at its
      entry has been collected by the visit. */
  lemma CloseVisit(adj: seq<seq<nat>>, S0: set<nat>, seen: set<nat>, Q: seq<nat>, N: seq<nat>, u: nat)
    requires Closed(adj, seen, Q) && (forall x :: x in N ==> x in Q)
    requires seen == S0 + {u} + Elems(N)
    requires forall x :: Edge(adj, u, x) ==> x in seen
    ensures forall z :: WhiteReach(adj, S0, u, z) ==> z in Elems(N) + {u}
  {
    var M := Elems(N) + {u};
    forall w, x | w in M && Edge(adj, w, x)
      ensures x in S0 || x in M
    {
      if w != u {
        assert w in N;
        var j :| 0 <= j < |Q| && Q[j] == w;
        assert Edge(adj, Q[j], x);
        assert x in seen;
      } else {
        assert x in seen;
      }
      assert x in S0 || x in {u} || x in Elems(N);
    }
    WhiteClosed(adj, S0, M, u);
  }

  /** More flags set means fewer clear. */
  lemma UnsetShrinks(f1: seq<bool>, f2: seq<bool>)
    requires |f1| == |f2| && SetOf(f1) <= SetOf(f2)
    ensures UnsetOf(f2) <= UnsetOf(f1)
  {
    forall v | v in UnsetOf(f2)
      ensures v in UnsetOf(f1)
    {
      if f1[v] {
        assert v in SetOf(f1);
      }
    }
  }
}
