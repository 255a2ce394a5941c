/**
  Why the two-pass method finds the strongly connected components.

  The first traversal leaves a push sequence F with `FinishOrder`.  The
  second traversal runs over the transposed graph and starts its visits in
  the order F read from its last entry; each tree it grows is then exactly
  the component of its root.
*/
module SccTheory {
  import opened Graphs
  import opened Paths
  import opened DfsTheory

  /** S holds whole components only. */
  ghost predicate SccClosed(adj: seq<seq<nat>>, S: set<nat>)
  {
    forall x, y :: x in S && Mutual(adj, x, y) ==> y in S
  }

  /** Each tree is the component of its root. */
  ghost predicate TreesAreSccs(adj: seq<seq<nat>>, fo: seq<Tree>)
  {
    forall k :: 0 <= k < |fo| ==> fo[k].members == SccOf(adj, fo[k].root)
  }

  /** The last position of F holding a vertex of c's component. */
  lemma LastMutualIndex(adj: seq<seq<nat>>, F: seq<nat>, c: nat) returns (jm: nat)
    requires c in F
    ensures jm < |F| && Mutual(adj, F[jm], c)
    ensures forall j :: jm < j < |F| ==> !Mutual(adj, F[j], c)
  {
    ReachRefl(adj, c);
    jm := |F| - 1;
    while !Mutual(adj, F[jm], c)
      invariant jm < |F|
      invariant forall j :: jm < j < |F| ==> !Mutual(adj, F[j], c)
      invariant exists j :: 0 <= j <= jm && F[j] == c
      decreases jm
    {
      jm := jm - 1;
    }
  }

  /** Past the last position mutual with c, no vertex is mutual with c. */
  lemma MutualUpTo(adj: seq<seq<nat>>, F: seq<nat>, jm: nat, c: nat, a: nat)
    requires jm < |F| && forall j :: jm < j < |F| ==> !Mutual(adj, F[j], c)
    requires a in F && Mutual(adj, a, c)
    ensures a in F[..jm + 1]
  {
    var j :| 0 <= j < |F| && F[j] == a;
    assert F[..jm + 1][j] == a;
  }

  /** The heart of the argument: if the root r = F[pr] has the latest finish
      among the vertices not yet taken, and c, not yet taken, has an edge into
      r's component, then r reaches c. */
  lemma StepInScc(n: nat, adj: seq<seq<nat>>, F: seq<nat>, S: set<nat>, pr: nat, b: nat, c: nat)
    requires WellFormed(n, adj) && IsPermutation(F, n) && FinishOrder(adj, F)
    requires pr < |F| && forall j :: pr < j < |F| ==> F[j] in S
    requires SccClosed(adj, S)
    requires Mutual(adj, F[pr], b) && Edge(adj, c, b) && c !in S
    ensures Mutual(adj, F[pr], c)
  {
    var r := F[pr];
    EdgeReach(adj, c, b, r);
    assert c < n;
    var jm := LastMutualIndex(adj, F, c);
    var M := F[jm];
    assert M !in S;
    assert jm <= pr;
    ReachTrans(adj, M, c, r);
    assert FinishedAt(adj, F, jm);
    if r in F[..jm + 1] {
      var j' :| 0 <= j' <= jm && F[j'] == r;
      assert j' == pr;
    } else {
      var a :| a !in F[..jm + 1] && Mutual(adj, a, M);
      assert M in F;
      ReachBounded(n, adj, M, a);
      MutualTrans(adj, a, M, c);
      MutualUpTo(adj, F, jm, c, a);
      assert false;
    }
  }

  lemma {:induction false} WhitePathInScc(n: nat, adj: seq<seq<nat>>, adjT: seq<seq<nat>>, F: seq<nat>, S: set<nat>, pr: nat, q: seq<nat>)
    requires WellFormed(n, adj) && IsTranspose(adj, adjT)
    requires IsPermutation(F, n) && FinishOrder(adj, F)
    requires pr < |F| && forall j :: pr < j < |F| ==> F[j] in S
    requires SccClosed(adj, S)
    requires IsPath(adjT, q) && Avoids(q, S) && Mutual(adj, F[pr], q[0])
    ensures Mutual(adj, F[pr], q[|q| - 1])
    decreases |q|
  {
    if |q| > 1 {
      assert Edge(adjT, q[0], q[1]);
      assert q[1] !in S;
      StepInScc(n, adj, F, S, pr, q[0], q[1]);
      PathSlice(adjT, q, 1, |q|);
      WhitePathInScc(n, adj, adjT, F, S, pr, q[1..]);
    }
  }

  /** Along a walk that ends in r, every vertex reaches r and is reached from
      the walk's start. */
  lemma OnPathToRoot(adj: seq<seq<nat>>, p: seq<nat>, m: nat)
    requires IsPath(adj, p) && m < |p|
    ensures Reach(adj, p[0], p[m]) && Reach(adj, p[m], p[|p| - 1])
  {
    PathSlice(adj, p, 0, m + 1);
    assert p[..m + 1][0] == p[0] && p[..m + 1][m] == p[m];
    PathSlice(adj, p, m, |p|);
    assert p[m..][0] == p[m] && p[m..][|p[m..]| - 1] == p[|p| - 1];
  }

  /** The tree the second pass grows from r, over the transposed graph, is r's component. */
  lemma RootTreeIsScc(n: nat, adj: seq<seq<nat>>, adjT: seq<seq<nat>>, F: seq<nat>, S: set<nat>, pr: nat)
    requires WellFormed(n, adj) && IsTranspose(adj, adjT)
    requires IsPermutation(F, n) && FinishOrder(adj, F)
    requires pr < |F| && F[pr] !in S && forall j :: pr < j < |F| ==> F[j] in S
    requires SccClosed(adj, S)
    ensures WhiteSet(adjT, S, F[pr]) == SccOf(adj, F[pr])
  {
    var r := F[pr];
    ReachRefl(adj, r);
    forall z | z in WhiteSet(adjT, S, r)
      ensures z in SccOf(adj, r)
    {
      var q :| IsPath(adjT, q) && q[0] == r && q[|q| - 1] == z && Avoids(q, S);
      WhitePathInScc(n, adj, adjT, F, S, pr, q);
    }
    forall y | y in SccOf(adj, r)
      ensures y in WhiteSet(adjT, S, r)
    {
      var p :| IsPath(adj, p) && p[0] == y && p[|p| - 1] == r;
      var q := PathReverse(adj, adjT, p);
      forall k | 0 <= k < |q|
        ensures q[k] !in S
      {
        var m := |p| - 1 - k;
        assert q[k] == p[m];
        OnPathToRoot(adj, p, m);
        ReachTrans(adj, r, y, p[m]);
        if p[m] in S {
          assert Mutual(adj, p[m], r);
        }
      }
      assert IsPath(adjT, q) && q[0] == r && q[|q| - 1] == y && Avoids(q, S);
    }
  }

  /** Adding a component to a union of components gives a union of components. */
  lemma AddScc(n: nat, adj: seq<seq<nat>>, S: set<nat>, r: nat)
    requires WellFormed(n, adj) && SccClosed(adj, S)
    ensures SccClosed(adj, S + SccOf(adj, r))
  {
    forall x, y | x in S + SccOf(adj, r) && Mutual(adj, x, y)
      ensures y in S + SccOf(adj, r)
    {
      if x !in S {
        MutualTrans(adj, r, x, y);
        ReachBounded(n, adj, x, y);
      }
    }
  }

  /** The last i entries of F lie in S. */
  ghost predicate TopIn(F: seq<nat>, i: nat, S: set<nat>)
  {
    forall j :: 0 <= j < |F| && |F| - i <= j ==> F[j] in S
  }

  /** One more entry of F, read from the top, lies in S + T. */
  lemma TopInStep(F: seq<nat>, i: nat, S: set<nat>, T: set<nat>)
    requires TopIn(F, i, S) && (i < |F| ==> F[|F| - 1 - i] in S + T)
    ensures TopIn(F, i + 1, S + T)
  {
  }

  /** The second pass, from position i of its visiting order L (F read from
      the top, perhaps followed by further vertices) with S already taken. */
  lemma {:induction false} KosarajuFrom(n: nat, adj: seq<seq<nat>>, adjT: seq<seq<nat>>, F: seq<nat>, L: seq<nat>, i: nat, S: set<nat>)
    requires WellFormed(n, adj) && IsTranspose(adj, adjT)
    requires IsPermutation(F, n) && FinishOrder(adj, F)
    requires |F| <= |L| && forall k :: 0 <= k < |F| ==> L[k] == F[|F| - 1 - k]
    requires forall x :: x in L ==> x < n
    requires i <= |L| && SccClosed(adj, S) && TopIn(F, i, S)
    ensures TreesAreSccs(adj, Forest(adjT, L[i..], S))
    decreases |L| - i
  {
    if i < |L| {
      var r := L[i];
      assert L[i..] == [r] + L[i + 1..];
      if r in S {
        TopInStep(F, i, S, {});
        assert S + {} == S;
        assert Forest(adjT, L[i..], S) == Forest(adjT, L[i + 1..], S);
        KosarajuFrom(n, adj, adjT, F, L, i + 1, S);
      } else {
        assert r in L;
        assert r in F;
        assert i < |F|;
        var pr := |F| - 1 - i;
        assert F[pr] == r;
        RootTreeIsScc(n, adj, adjT, F, S, pr);
        var T := SccOf(adj, r);
        AddScc(n, adj, S, r);
        ReachRefl(adj, r);
        TopInStep(F, i, S, T);
        assert Forest(adjT, L[i..], S) == [Tree(r, T)] + Forest(adjT, L[i + 1..], S + T);
        KosarajuFrom(n, adj, adjT, F, L, i + 1, S + T);
      }
    }
  }

  /** Kosaraju's theorem for the model: every tree of the second pass is a component. */
  lemma Kosaraju(n: nat, adj: seq<seq<nat>>, adjT: seq<seq<nat>>, F: seq<nat>, L: seq<nat>)
    requires WellFormed(n, adj) && IsTranspose(adj, adjT)
    requires IsPermutation(F, n) && FinishOrder(adj, F)
    requires |F| <= |L| && forall k :: 0 <= k < |F| ==> L[k] == F[|F| - 1 - k]
    requires forall x :: x in L ==> x < n
    ensures TreesAreSccs(adj, Forest(adjT, L, {}))
  {
    KosarajuFrom(n, adj, adjT, F, L, 0, {});
    assert L[0..] == L;
  }

  /** Vertices of one component have the same component. */
  lemma SccOfEq(adj: seq<seq<nat>>, a: nat, b: nat)
    requires Mutual(adj, a, b)
    ensures SccOf(adj, a) == SccOf(adj, b)
  {
    forall z | z in SccOf(adj, a) ensures z in SccOf(adj, b) {
      MutualTrans(adj, b, a, z);
    }
    forall z | z in SccOf(adj, b) ensures z in SccOf(adj, a) {
      MutualTrans(adj, a, b, z);
    }
  }

  /** With trees that are components, pairwise disjoint, and numbered so that
      v lies in tree cno[v] - 1, two vertices share a number exactly when they
      are mutually reachable. */
  lemma SameNumberIffMutual(n: nat, adj: seq<seq<nat>>, fo: seq<Tree>, cno: seq<int>)
    requires TreesAreSccs(adj, fo) && PairwiseDisjoint(fo) && |adj| == n
    requires |cno| == n && forall v :: 0 <= v < n ==> 1 <= cno[v] <= |fo| && v in fo[cno[v] - 1].members
    ensures forall u, v :: 0 <= u < n && 0 <= v < n ==> (cno[u] == cno[v] <==> Mutual(adj, u, v))
  {
    forall u, v | 0 <= u < n && 0 <= v < n
      ensures cno[u] == cno[v] <==> Mutual(adj, u, v)
    {
      var k, l := cno[u] - 1, cno[v] - 1;
      var r := fo[k].root;
      assert u in SccOf(adj, r);
      if k == l {
        assert v in SccOf(adj, r);
        MutualTrans(adj, u, r, v);
      }
      if Mutual(adj, u, v) {
        MutualTrans(adj, r, u, v);
        assert v in fo[k].members;
      }
    }
  }

  /** The sets of pairwise disjoint non-empty trees are as many as the trees. */
  lemma {:induction false} DistinctTreeSets(fo: seq<Tree>)
    requires PairwiseDisjoint(fo)
    requires forall k :: 0 <= k < |fo| ==> fo[k].root in fo[k].members
    ensures |set k | 0 <= k < |fo| :: fo[k].members| == |fo|
  {
    if fo != [] {
      var init := fo[..|fo| - 1];
      var last := fo[|fo| - 1].members;
      assert PairwiseDisjoint(init) by {
        forall k, l | 0 <= k < l < |init| ensures init[k].members !! init[l].members {
          assert init[k] == fo[k] && init[l] == fo[l];
        }
      }
      DistinctTreeSets(init);
      var A := set k | 0 <= k < |init| :: init[k].members;
      assert (set k | 0 <= k < |fo| :: fo[k].members) == A + {last} by {
        forall X | X in A ensures X in (set k | 0 <= k < |fo| :: fo[k].members) {
          var k :| 0 <= k < |init| && X == init[k].members;
          assert fo[k] == init[k];
        }
      }
      assert last !in A;
    }
  }

  /** v lies in one of the trees. */
  ghost predicate InSomeTree(fo: seq<Tree>, v: nat)
  {
    exists k :: 0 <= k < |fo| && v in fo[k].members
  }

  /** Trees that are components and cover every vertex are exactly the components. */
  lemma TreeSetsAreComponents(n: nat, adj: seq<seq<nat>>, fo: seq<Tree>)
    requires |adj| == n && TreesAreSccs(adj, fo)
    requires forall k :: 0 <= k < |fo| ==> fo[k].root in fo[k].members
    requires forall v :: 0 <= v < n ==> InSomeTree(fo, v)
    ensures (set k | 0 <= k < |fo| :: fo[k].members) == Components(adj)
  {
    var T := set k | 0 <= k < |fo| :: fo[k].members;
    forall X | X in Components(adj)
      ensures X in T
    {
      var v :| 0 <= v < |adj| && X == SccOf(adj, v);
      assert InSomeTree(fo, v);
      var k :| 0 <= k < |fo| && v in fo[k].members;
      SccOfEq(adj, fo[k].root, v);
    }
    forall X | X in T
      ensures X in Components(adj)
    {
      var k :| 0 <= k < |fo| && X == fo[k].members;
      assert fo[k].root < |adj|;
    }
  }

  /** So there are as many trees as components. */
  lemma ComponentCount(n: nat, adj: seq<seq<nat>>, fo: seq<Tree>)
    requires |adj| == n && TreesAreSccs(adj, fo) && PairwiseDisjoint(fo)
    requires forall k :: 0 <= k < |fo| ==> fo[k].root in fo[k].members
    requires forall v :: 0 <= v < n ==> InSomeTree(fo, v)
    ensures |fo| == |Components(adj)|
  {
    DistinctTreeSets(fo);
    TreeSetsAreComponents(n, adj, fo);
  }
}
