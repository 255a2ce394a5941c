/** Facts about walks, reachability and distinct listings of vertices. */
module Paths {
  import opened Graphs

  /** Two walks that meet end to start make one walk. */
  lemma PathJoin(adj: seq<seq<nat>>, p: seq<nat>, q: seq<nat>)
    requires IsPath(adj, p) && IsPath(adj, q) && p[|p| - 1] == q[0]
    ensures IsPath(adj, p + q[1..])
    ensures (p + q[1..])[0] == p[0] && (p + q[1..])[|p + q[1..]| - 1] == q[|q| - 1]
  {
    var r := p + q[1..];
    forall k | 0 <= k < |r| - 1
      ensures Edge(adj, r[k], r[k + 1])
    {
      if k < |p| - 1 {
        assert r[k] == p[k] && r[k + 1] == p[k + 1];
      } else {
        var m := k - |p| + 1;
        assert r[k] == q[m] && r[k + 1] == q[m + 1];
      }
    }
  }

  /** Any stretch of a walk is a walk. */
  lemma PathSlice(adj: seq<seq<nat>>, p: seq<nat>, i: nat, j: nat)
    requires IsPath(adj, p) && i < j <= |p|
    ensures IsPath(adj, p[i..j])
  {
    var r := p[i..j];
    forall k | 0 <= k < |r| - 1
      ensures Edge(adj, r[k], r[k + 1])
    {
      assert r[k] == p[i + k] && r[k + 1] == p[i + k + 1];
    }
  }

  lemma ReachRefl(adj: seq<seq<nat>>, a: nat)
    ensures Reach(adj, a, a)
  {
    assert IsPath(adj, [a]);
  }

  lemma ReachTrans(adj: seq<seq<nat>>, a: nat, b: nat, c: nat)
    requires Reach(adj, a, b) && Reach(adj, b, c)
    ensures Reach(adj, a, c)
  {
    var p :| IsPath(adj, p) && p[0] == a && p[|p| - 1] == b;
    var q :| IsPath(adj, q) && q[0] == b && q[|q| - 1] == c;
    PathJoin(adj, p, q);
  }

  lemma ReachEdge(adj: seq<seq<nat>>, a: nat, b: nat, c: nat)
    requires Reach(adj, a, b) && Edge(adj, b, c)
    ensures Reach(adj, a, c)
  {
    assert IsPath(adj, [b, c]);
    ReachTrans(adj, a, b, c);
  }

  lemma EdgeReach(adj: seq<seq<nat>>, a: nat, b: nat, c: nat)
    requires Edge(adj, a, b) && Reach(adj, b, c)
    ensures Reach(adj, a, c)
  {
    assert IsPath(adj, [a, b]);
    ReachTrans(adj, a, b, c);
  }

  lemma MutualTrans(adj: seq<seq<nat>>, a: nat, b: nat, c: nat)
    requires Mutual(adj, a, b) && Mutual(adj, b, c)
    ensures Mutual(adj, a, c)
  {
    ReachTrans(adj, a, b, c);
    ReachTrans(adj, c, b, a);
  }

  /** Every vertex of a walk that starts at a vertex is a vertex. */
  lemma PathBounded(n: nat, adj: seq<seq<nat>>, p: seq<nat>)
    requires WellFormed(n, adj) && IsPath(adj, p) && p[0] < n
    ensures forall k :: 0 <= k < |p| ==> p[k] < n
  {
    forall k | 0 <= k < |p|
      ensures p[k] < n
    {
      if k > 0 {
        assert Edge(adj, p[k - 1], p[k]);
        var j :| 0 <= j < |adj[p[k - 1]]| && adj[p[k - 1]][j] == p[k];
      }
    }
  }

  lemma ReachBounded(n: nat, adj: seq<seq<nat>>, a: nat, b: nat)
    requires WellFormed(n, adj) && Reach(adj, a, b) && a < n
    ensures b < n
  {
    var p :| IsPath(adj, p) && p[0] == a && p[|p| - 1] == b;
    PathBounded(n, adj, p);
  }

  /** Reading a walk backwards gives a walk of the transposed graph. */
  lemma PathReverse(adj: seq<seq<nat>>, radj: seq<seq<nat>>, p: seq<nat>) returns (q: seq<nat>)
    requires IsTranspose(adj, radj) && IsPath(adj, p)
    ensures IsPath(radj, q) && |q| == |p|
    ensures forall k :: 0 <= k < |p| ==> q[k] == p[|p| - 1 - k]
  {
    q := seq(|p|, k requires 0 <= k < |p| => p[|p| - 1 - k]);
    forall k | 0 <= k < |q| - 1
      ensures Edge(radj, q[k], q[k + 1])
    {
      assert Edge(adj, p[|p| - 2 - k], p[|p| - 1 - k]);
    }
  }

  lemma ReachReverse(adj: seq<seq<nat>>, radj: seq<seq<nat>>, a: nat, b: nat)
    requires IsTranspose(adj, radj) && Reach(adj, a, b)
    ensures Reach(radj, b, a)
  {
    var p :| IsPath(adj, p) && p[0] == a && p[|p| - 1] == b;
    var q := PathReverse(adj, radj, p);
    assert q[0] == b && q[|q| - 1] == a;
  }

  /** Two distinct mutually reachable vertices close a cycle. */
  lemma MutualNotAcyclic(adj: seq<seq<nat>>, a: nat, b: nat)
    requires Mutual(adj, a, b) && a != b
    ensures !Acyclic(adj)
  {
    var p :| IsPath(adj, p) && p[0] == a && p[|p| - 1] == b;
    var q :| IsPath(adj, q) && q[0] == b && q[|q| - 1] == a;
    PathJoin(adj, p, q);
    var r := p + q[1..];
    assert |p| >= 2;
  }

  /** A listing without repetitions. */
  ghost predicate Distinct(s: seq<nat>)
  {
    forall i, j :: 0 <= i < j < |s| ==> s[i] != s[j]
  }

  /** A listing of every vertex 0..n-1 exactly once. */
  ghost predicate IsPermutation(s: seq<nat>, n: nat)
  {
    && |s| == n
    && Distinct(s)
    && (forall x :: x in s ==> x < n)
    && (forall v :: 0 <= v < n ==> v in s)
  }

  /** The vertices 0..n-1, with exactly n members. */
  ghost function Range(n: nat): (r: set<nat>)
    ensures forall v: nat :: v in r <==> v < n
    ensures |r| == n
  {
    if n == 0 then {} else Range(n - 1) + {n - 1}
  }

  /** The vertices a listing names. */
  ghost function Elems(s: seq<nat>): set<nat>
  {
    set x | x in s
  }

  lemma {:induction false} DistinctCard(s: seq<nat>)
    requires Distinct(s)
    ensures |Elems(s)| == |s|
  {
    if s != [] {
      var t := s[..|s| - 1];
      var last := s[|s| - 1];
      assert s == t + [last];
      assert Distinct(t);
      DistinctCard(t);
      assert Elems(s) == Elems(t) + {last};
      assert last !in t;
    }
  }

  lemma SubsetCard<T>(A: set<T>, B: set<T>)
    requires A <= B
    ensures |A| <= |B|
  {
    assert B == A + (B - A);
  }

  /** A repetition-free listing of vertices that names each of 0..n-1 has exactly n entries. */
  lemma DistinctCovering(s: seq<nat>, n: nat)
    requires Distinct(s)
    requires forall x :: x in s ==> x < n
    requires forall v :: 0 <= v < n ==> v in s
    ensures IsPermutation(s, n)
  {
    DistinctCard(s);
    assert Elems(s) == Range(n);
  }

  /** More than n entries below n must repeat one (pigeonhole). */
  lemma Pigeonhole(s: seq<nat>, n: nat)
    requires |s| > n
    requires forall k :: 0 <= k < |s| ==> s[k] < n
    ensures !Distinct(s)
  {
    if Distinct(s) {
      DistinctCard(s);
      assert Elems(s) <= Range(n);
      SubsetCard(Elems(s), Range(n));
    }
  }

  /** s read from its last entry to its first. */
  function Reverse(s: seq<nat>): (r: seq<nat>)
    ensures |r| == |s|
    ensures forall k :: 0 <= k < |s| ==> r[k] == s[|s| - 1 - k]
  {
    if s == [] then [] else [s[|s| - 1]] + Reverse(s[..|s| - 1])
  }

  /** Taking entries from the end of s one at a time builds Reverse(s). */
  lemma ReverseSnoc(s: seq<nat>)
    requires s != []
    ensures Reverse(s) == [s[|s| - 1]] + Reverse(s[..|s| - 1])
  {
  }

  /** Reading a concatenation backwards reads each part backwards, in swapped order. */
  lemma ReverseAppend(a: seq<nat>, b: seq<nat>)
    ensures Reverse(a + b) == Reverse(b) + Reverse(a)
  {
    var r, t := Reverse(a + b), Reverse(b) + Reverse(a);
    forall k | 0 <= k < |r|
      ensures r[k] == t[k]
    {
      if k < |b| {
        assert r[k] == (a + b)[|a| + |b| - 1 - k] == b[|b| - 1 - k];
      } else {
        assert r[k] == (a + b)[|a| + |b| - 1 - k] == a[|a| + |b| - 1 - k];
      }
    }
  }

  /** Reading backwards keeps the same entries. */
  lemma ReverseElems(s: seq<nat>)
    ensures forall x :: x in Reverse(s) <==> x in s
  {
    var r := Reverse(s);
    forall x | x in s
      ensures x in r
    {
      var k :| 0 <= k < |s| && s[k] == x;
      assert r[|s| - 1 - k] == x;
    }
    forall x | x in r
      ensures x in s
    {
      var k :| 0 <= k < |r| && r[k] == x;
      assert s[|s| - 1 - k] == x;
    }
  }

  lemma DistinctSnoc(s: seq<nat>, x: nat)
    requires Distinct(s) && x !in s
    ensures Distinct(s + [x])
  {
  }

  /** A listing of every vertex read backwards still lists every vertex once. */
  lemma ReversePermutation(s: seq<nat>, n: nat)
    requires IsPermutation(s, n)
    ensures IsPermutation(Reverse(s), n)
  {
    var r := Reverse(s);
    forall v | 0 <= v < n
      ensures v in r
    {
      assert v in s;
      var k :| 0 <= k < |s| && s[k] == v;
      assert r[|s| - 1 - k] == v;
    }
    forall i, j | 0 <= i < j < |r|
      ensures r[i] != r[j]
    {
      assert r[i] == s[|s| - 1 - i] && r[j] == s[|s| - 1 - j];
      assert s[|s| - 1 - j] != s[|s| - 1 - i];
    }
    forall x | x in r
      ensures x < n
    {
      var k :| 0 <= k < |r| && r[k] == x;
      assert s[|s| - 1 - k] == x && s[|s| - 1 - k] in s;
    }
  }

  lemma ElemsAppend(a: seq<nat>, b: seq<nat>)
    ensures Elems(a + b) == Elems(a) + Elems(b)
  {
  }

  lemma ElemsSnoc(a: seq<nat>, x: nat)
    ensures Elems(a + [x]) == Elems(a) + {x}
  {
    ElemsAppend(a, [x]);
    assert Elems([x]) == {x};
  }

  lemma ElemsJoin(a: seq<nat>, b: seq<nat>, x: nat)
    ensures Elems(a + b) + {x} == Elems(a) + {x} + Elems(b)
  {
    ElemsAppend(a, b);
  }

  lemma ElemsNone(x: nat)
    ensures Elems([]) + {x} == {x}
  {
  }

  lemma AppendAssoc(a: seq<nat>, b: seq<nat>, c: seq<nat>)
    ensures (a + b) + c == a + (b + c)
  {
  }

  lemma SliceAppend(a: seq<nat>, b: seq<nat>, i: nat)
    requires i <= |a|
    ensures (a + b)[i..] == a[i..] + b
  {
  }
}
