/**
  The diameter of a tree by two breadth-first sweeps.

  Breadth-first search is not modelled: `dist(s, v)` is the distance the
  search started at s reports for v.  Vertices are 0..n-1, so the source's
  vertex 1 is vertex 0 here.
*/
module TreeDiameter {

  /** f is what the farthest-vertex scan from s must return: when some
      vertex lies at a positive distance, the first vertex at the largest
      distance; otherwise s itself. */
  ghost predicate IsFarthest(n: nat, dist: (nat, nat) -> int, s: nat, f: nat)
  {
    if exists u :: 0 <= u < n && dist(s, u) > 0 then
      && f < n
      && (forall u :: 0 <= u < n ==> dist(s, u) <= dist(s, f))
      && (forall u :: 0 <= u < f ==> dist(s, u) < dist(s, f))
    else
      f == s
  }

  /** At most one vertex is the farthest from s. */
  lemma FarthestUnique(n: nat, dist: (nat, nat) -> int, s: nat, f1: nat, f2: nat)
    requires IsFarthest(n, dist, s, f1) && IsFarthest(n, dist, s, f2)
    ensures f1 == f2
  {
  }

  /** Distances as they are in a tree: non-negative, symmetric, and
      satisfying the four-point condition (of the three ways to pair up
      four vertices, the two largest pair sums are equal). */
  ghost predicate TreeMetric(n: nat, dist: (nat, nat) -> int)
  {
    && (forall x, y :: 0 <= x < n && 0 <= y < n ==> 0 <= dist(x, y) == dist(y, x))
    && (forall x, y, z, w :: 0 <= x < n && 0 <= y < n && 0 <= z < n && 0 <= w < n ==>
          FourPoint(dist, x, y, z, w))
  }

  /** The pairing {x, y}, {z, w} does not give the strictly largest sum. */
  ghost predicate FourPoint(dist: (nat, nat) -> int, x: nat, y: nat, z: nat, w: nat)
  {
    || dist(x, y) + dist(z, w) <= dist(x, z) + dist(y, w)
    || dist(x, y) + dist(z, w) <= dist(x, w) + dist(y, z)
  }

  /** d is the largest distance between two vertices (0 for no vertices). */
  ghost predicate IsDiameter(n: nat, dist: (nat, nat) -> int, d: int)
  {
    && (forall x, y :: 0 <= x < n && 0 <= y < n ==> dist(x, y) <= d)
    && (if n == 0 then d == 0 else exists x, y :: 0 <= x < n && 0 <= y < n && dist(x, y) == d)
  }

  /** `findFarthestNode`: scans every vertex and keeps the first one whose
      distance beats the best so far, starting from 0 and the source. */
  method FindFarthestNode(n: nat, dist: (nat, nat) -> int, s: nat) returns (farthest: nat)
    ensures IsFarthest(n, dist, s, farthest)
  {
    var max := 0;
    farthest := s;
    var u := 0;
    while u < n
      invariant u <= n
      invariant (exists v :: 0 <= v < u && dist(s, v) > 0) ==>
                  farthest < u && max == dist(s, farthest) &&
                  (forall v :: 0 <= v < u ==> dist(s, v) <= max) &&
                  (forall v :: 0 <= v < farthest ==> dist(s, v) < max)
      invariant (forall v :: 0 <= v < u ==> dist(s, v) <= 0) ==> farthest == s && max == 0
    {
      var d := dist(s, u);
      if max < d {
        max := d;
        farthest := u;
      }
      u := u + 1;
    }
  }

  /** From a vertex a farthest from anywhere, the farthest distance is the
      diameter: the four-point condition bounds every pair by a distance
      from a. */
  lemma {:induction false} DoubleSweep(n: nat, dist: (nat, nat) -> int, s: nat, a: nat, b: nat)
    requires TreeMetric(n, dist) && s < n
    requires IsFarthest(n, dist, s, a) && IsFarthest(n, dist, a, b)
    ensures IsDiameter(n, dist, dist(a, b))
  {
    assert a < n;
    assert b < n;
    forall v | 0 <= v < n
      ensures dist(s, v) <= dist(s, a) && dist(a, v) <= dist(a, b)
    {
      assert 0 <= dist(s, a) && 0 <= dist(a, b);
    }
    forall x, y | 0 <= x < n && 0 <= y < n
      ensures dist(x, y) <= dist(a, b)
    {
      assert dist(x, s) == dist(s, x) && dist(y, s) == dist(s, y);
      assert dist(x, a) == dist(a, x) && dist(y, a) == dist(a, y);
      assert FourPoint(dist, x, y, s, a);
    }
  }

  /** `diameter`: 0 for an empty graph; otherwise a sweep from vertex 0
      finds a, a sweep from a finds b, and the answer is the distance from a
      to b.  On a tree that is the diameter. */
  method Diameter(n: nat, dist: (nat, nat) -> int) returns (d: int)
    ensures n == 0 ==> d == 0
    ensures n > 0 ==> exists a, b :: IsFarthest(n, dist, 0, a) && IsFarthest(n, dist, a, b) && d == dist(a, b)
    ensures TreeMetric(n, dist) ==> IsDiameter(n, dist, d)
  {
    if n == 0 {
      return 0;
    }
    var a := FindFarthestNode(n, dist, 0);
    var b := FindFarthestNode(n, dist, a);
    d := dist(a, b);
    if TreeMetric(n, dist) {
      DoubleSweep(n, dist, 0, a, b);
    }
  }

  /** Hop distances in the ten-vertex tree of the demonstration input
      (edges 1-2, 1-3, 2-4, 2-5, 3-6, 3-7, 4-8, 7-9 and 7-10, each vertex
      numbered one lower here). */
  const DemoTable: seq<seq<int>> := [
      [0, 1, 1, 2, 2, 2, 2, 3, 3, 3],
      [1, 0, 2, 1, 1, 3, 3, 2, 4, 4],
      [1, 2, 0, 3, 3, 1, 1, 4, 2, 2],
      [2, 1, 3, 0, 2, 4, 4, 1, 5, 5],
      [2, 1, 3, 2, 0, 4, 4, 3, 5, 5],
      [2, 3, 1, 4, 4, 0, 2, 5, 3, 3],
      [2, 3, 1, 4, 4, 2, 0, 5, 1, 1],
      [3, 2, 4, 1, 3, 5, 5, 0, 6, 6],
      [3, 4, 2, 5, 5, 3, 1, 6, 0, 2],
      [3, 4, 2, 5, 5, 3, 1, 6, 2, 0]
    ]

  function DemoDist(x: nat, y: nat): int
  {
    if x < |DemoTable| && y < |DemoTable[x]| then DemoTable[x][y] else 0
  }

  /** No two vertices of the demonstration tree are more than 6 apart. */
  lemma DemoBound()
    ensures forall x, y :: 0 <= x < 10 && 0 <= y < 10 ==> DemoDist(x, y) <= 6
  {
    forall x, y | 0 <= x < 10 && 0 <= y < 10
      ensures DemoDist(x, y) <= 6
    {
      var row := DemoTable[x];
      assert row in DemoTable;
      assert row[y] in row;
    }
  }

  /** The sweep from the source's vertex 1 ends at its vertex 8, the first
      of the three vertices at depth 3. */
  lemma DemoFirstSweep(a: nat)
    requires IsFarthest(10, DemoDist, 0, a)
    ensures a == 7
  {
    assert DemoDist(0, 1) > 0;
    assert DemoDist(0, 7) == 3;
  }

  /** The sweep from the source's vertex 8 ends at its vertex 9. */
  lemma DemoSecondSweep(b: nat)
    requires IsFarthest(10, DemoDist, 7, b)
    ensures b == 8
  {
    assert DemoDist(7, 8) == 6;
  }

  /** On the demonstration tree the two sweeps end at the source's vertices
      8 and 9, and their distance 6 is the diameter. */
  lemma DemoSweeps(a: nat, b: nat)
    requires IsFarthest(10, DemoDist, 0, a) && IsFarthest(10, DemoDist, a, b)
    ensures a == 7 && b == 8 && DemoDist(a, b) == 6
    ensures IsDiameter(10, DemoDist, 6)
  {
    DemoFirstSweep(a);
    DemoSecondSweep(b);
    DemoBound();
  }
}
