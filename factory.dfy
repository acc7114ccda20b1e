/**
 Builders for the standard digraph families: the complete digraph (dense),
 the directed cycle and the directed path (both sparse).  Each builder
 allocates its storage and fills it slot by slot, as the factory does, and
 its postcondition describes the result through the digraph contract.
 */
module Factory {
  import opened Digraphs

  /** A slot of a freshly allocated array of neighbour lists: it holds no
      list (a null reference) until the builder assigns one. */
  datatype Slot = Null | Assigned(neighbours: seq<int>)

  predicate AllAssigned(slots: seq<Slot>)
  {
    forall i :: 0 <= i < |slots| ==> slots[i].Assigned?
  }

  /** The lists held by a fully assigned array of slots. */
  function Lists(slots: seq<Slot>): (a: seq<seq<int>>)
    requires AllAssigned(slots)
    ensures |a| == |slots|
    ensures forall i :: 0 <= i < |a| ==> slots[i] == Assigned(a[i])
  {
    seq(|slots|, i requires 0 <= i < |slots| => slots[i].neighbours)
  }

  /** The successor of vertex i on the directed cycle of n vertices. */
  function Next(i: int, n: int): int
    requires 0 <= i < n
  {
    (i + 1) % n
  }

  /** The predecessor of vertex j on the directed cycle of n vertices. */
  function Previous(j: int, n: int): int
    requires 0 <= j < n
  {
    (j - 1 + n) % n
  }

  lemma NextWraps(i: int, n: int)
    requires 0 <= i < n
    ensures Next(i, n) == if i + 1 < n then i + 1 else 0
  {
  }

  lemma PreviousWraps(j: int, n: int)
    requires 0 <= j < n
    ensures Previous(j, n) == if j == 0 then n - 1 else j - 1
  {
  }

  /** The successor and predecessor maps undo each other. */
  lemma NextPrevious(u: int, j: int, n: int)
    requires 0 <= u < n && 0 <= j < n
    ensures Next(u, n) == j <==> u == Previous(j, n)
  {
    NextWraps(u, n);
    PreviousWraps(j, n);
  }

  // ---------------------------------------------------------------------------
  // The complete digraph

  /** Every ordered pair of vertices, self-loops included, is an edge. */
  predicate IsComplete(g: Digraph)
    requires Valid(g)
  {
    forall x, y :: 0 <= x < Order(g) && 0 <= y < Order(g) ==> ContainsEdge(g, x, y)
  }

  /** The vertices 0 .. k-1 in ascending order. */
  function Range(k: nat): (r: seq<int>)
    ensures |r| == k && forall i :: 0 <= i < k ==> r[i] == i
  {
    seq(k, i => i)
  }

  lemma {:induction false} CompleteScans(g: Digraph, v: int, k: nat)
    requires Valid(g) && IsComplete(g) && IsVertex(g, v) && k <= Order(g)
    ensures Targets(g, v, k) == Range(k)
    ensures Sources(g, v, k) == Range(k)
  {
    if k > 0 {
      CompleteScans(g, v, k - 1);
      assert Range(k) == Range(k - 1) + [k - 1];
    }
  }

  lemma {:induction false} CompleteRowCount(g: Digraph, x: int, m: nat)
    requires Valid(g) && IsComplete(g) && IsVertex(g, x) && m <= Order(g)
    ensures CountTargets(g, x, m) == m
  {
    if m > 0 {
      CompleteRowCount(g, x, m - 1);
    }
  }

  lemma {:induction false} CompleteEdgeCount(g: Digraph, k: nat)
    requires Valid(g) && IsComplete(g) && k <= Order(g)
    ensures CountEdgesFrom(g, k) == k * Order(g)
  {
    if k > 0 {
      CompleteEdgeCount(g, k - 1);
      CompleteRowCount(g, k - 1, Order(g));
      assert k * Order(g) == (k - 1) * Order(g) + Order(g);
    }
  }

  /** The complete digraph on n vertices: every neighbour query gives all the
      vertices in ascending order, and there are n*n edges. */
  lemma CompleteShape(g: Digraph)
    requires g.Dense? && Valid(g) && IsComplete(g)
    ensures Size(g) == Order(g) * Order(g)
    ensures forall v :: IsVertex(g, v) ==>
      OutNeighbours(g, v) == Range(Order(g)) == InNeighbours(g, v)
  {
    CompleteEdgeCount(g, Order(g));
    forall v | IsVertex(g, v)
      ensures OutNeighbours(g, v) == Range(Order(g)) == InNeighbours(g, v)
    {
      CompleteScans(g, v, Order(g));
    }
  }

  /** Builds the complete digraph on n vertices as a dense matrix: one row
      filled with true, then every row of the matrix set to it. */
  method CompleteDigraph(n: int) returns (g: Digraph)
    requires n >= 0
    ensures g.Dense? && Valid(g) && Order(g) == n
    ensures IsComplete(g)
    ensures Size(g) == n * n
    ensures forall v :: 0 <= v < n ==> OutNeighbours(g, v) == Range(n) == InNeighbours(g, v)
  {
    var row := new bool[n];
    for i := 0 to n
      invariant forall k :: 0 <= k < i ==> row[k]
    {
      row[i] := true;
    }
    var matrix := new seq<bool>[n](_ => seq(n, _ => false));
    for i := 0 to n
      invariant forall k :: 0 <= k < n ==> row[k]
      invariant forall k :: 0 <= k < i ==> matrix[k] == row[..]
    {
      matrix[i] := row[..];
    }
    g := Dense(matrix[..]);
    assert IsComplete(g) by {
      forall x, y | 0 <= x < n && 0 <= y < n ensures matrix[..][x][y] {
        assert matrix[..][x] == matrix[x] == row[..];
        assert row[..][y] == row[y];
      }
    }
    CompleteShape(g);
  }

  // ---------------------------------------------------------------------------
  // The directed cycle

  /** Vertex i's only out-neighbour is its successor on the cycle. */
  predicate IsCycleAdjacency(a: seq<seq<int>>)
  {
    forall i :: 0 <= i < |a| ==> a[i] == [Next(i, |a|)]
  }

  lemma CycleValid(a: seq<seq<int>>)
    requires IsCycleAdjacency(a)
    ensures Valid(Sparse(a))
  {
    forall x, j | 0 <= x < |a| && 0 <= j < |a[x]| ensures 0 <= a[x][j] < |a| {
      NextWraps(x, |a|);
    }
  }

  /** In the directed cycle every vertex has exactly one in-neighbour, its
      predecessor, and there are as many edges as vertices. */
  lemma CycleShape(a: seq<seq<int>>)
    requires IsCycleAdjacency(a)
    ensures Valid(Sparse(a))
    ensures Size(Sparse(a)) == |a|
    ensures forall j :: 0 <= j < |a| ==> InNeighbours(Sparse(a), j) == [Previous(j, |a|)]
  {
    CycleValid(a);
    var g := Sparse(a);
    forall j | 0 <= j < |a| ensures InNeighbours(g, j) == [Previous(j, |a|)] {
      var p := Previous(j, |a|);
      PreviousWraps(j, |a|);
      forall u ensures u in InNeighbours(g, j) <==> u == p {
        if 0 <= u < |a| {
          NextPrevious(u, j, |a|);
        }
      }
      IncreasingSingleton(InNeighbours(g, j), p);
    }
    SparseSizeIsTotalLength(a);
    UnitListsLength(a);
  }

  /** Lists of length one hold as many entries as there are lists. */
  lemma {:induction false} UnitListsLength(a: seq<seq<int>>)
    requires forall i :: 0 <= i < |a| ==> |a[i]| == 1
    ensures TotalLength(a) == |a|
  {
    if a != [] {
      UnitListsLength(a[..|a| - 1]);
    }
  }

  /** Builds the directed cycle on n vertices: vertex i's list is the single
      successor (i+1) mod n.  For n = 0 no slot exists, so the modulus is
      never evaluated. */
  method CycleDigraph(n: int) returns (g: Digraph)
    requires n >= 0
    ensures g.Sparse? && Valid(g) && Order(g) == n
    ensures forall i :: 0 <= i < n ==> OutNeighbours(g, i) == [(i + 1) % n]
    ensures forall j :: 0 <= j < n ==> InNeighbours(g, j) == [(j - 1 + n) % n]
    ensures Size(g) == n
    ensures n == 0 ==> g.adjacency == []
    ensures n == 1 ==> g.adjacency == [[0]]
  {
    var adjacency := new Slot[n](_ => Null);
    for i := 0 to n
      invariant forall k :: 0 <= k < i ==> adjacency[k] == Assigned([Next(k, n)])
      invariant forall k :: i <= k < n ==> adjacency[k] == Null
    {
      var next := (i + 1) % n;
      adjacency[i] := Assigned([next]);
    }
    var a := Lists(adjacency[..]);
    CycleShape(a);
    g := Sparse(a);
  }

  // ---------------------------------------------------------------------------
  // The directed path

  /** Vertex i < n-1 has the single out-neighbour i+1; the last vertex has an
      empty list. */
  predicate IsPathAdjacency(a: seq<seq<int>>)
  {
    && |a| >= 1
    && (forall i :: 0 <= i < |a| - 1 ==> a[i] == [i + 1])
    && a[|a| - 1] == []
  }

  lemma PathValid(a: seq<seq<int>>)
    requires IsPathAdjacency(a)
    ensures Valid(Sparse(a))
  {
  }

  /** In the directed path vertex 0 has no in-neighbour, every other vertex j
      has the single in-neighbour j-1, and there are n-1 edges. */
  lemma PathShape(a: seq<seq<int>>)
    requires IsPathAdjacency(a)
    ensures Valid(Sparse(a))
    ensures Size(Sparse(a)) == |a| - 1
    ensures InNeighbours(Sparse(a), 0) == []
    ensures forall j :: 1 <= j < |a| ==> InNeighbours(Sparse(a), j) == [j - 1]
  {
    PathValid(a);
    var g := Sparse(a);
    forall u ensures u !in InNeighbours(g, 0) {
    }
    NoMembersEmpty(InNeighbours(g, 0));
    forall j | 1 <= j < |a| ensures InNeighbours(g, j) == [j - 1] {
      forall u ensures u in InNeighbours(g, j) <==> u == j - 1 {
      }
      IncreasingSingleton(InNeighbours(g, j), j - 1);
    }
    SparseSizeIsTotalLength(a);
    UnitListsLength(a[..|a| - 1]);
  }

  /** In the directed path no edge is reversed: (x,y) an edge makes (y,x) not one. */
  lemma PathIsOneWay(a: seq<seq<int>>, x: int, y: int)
    requires IsPathAdjacency(a) && 0 <= x < |a| && 0 <= y < |a|
    ensures Valid(Sparse(a))
    ensures ContainsEdge(Sparse(a), x, y) <==> y == x + 1
    ensures ContainsEdge(Sparse(a), x, y) ==> !ContainsEdge(Sparse(a), y, x)
  {
    PathValid(a);
  }

  /** Builds the directed path on n vertices: vertex i < n-1 gets the list
      [i+1] in the loop, and the last slot is then set to the empty list so
      that no slot is left null.  The last slot exists only when n >= 1. */
  method PathDigraph(n: int) returns (g: Digraph)
    requires n >= 1
    ensures g.Sparse? && Valid(g) && Order(g) == n
    ensures forall i :: 0 <= i < n - 1 ==> OutNeighbours(g, i) == [i + 1]
    ensures OutNeighbours(g, n - 1) == []
    ensures InNeighbours(g, 0) == []
    ensures forall j :: 1 <= j < n ==> InNeighbours(g, j) == [j - 1]
    ensures Size(g) == n - 1
    ensures n == 1 ==> g.adjacency == [[]]
  {
    var adjacency := new Slot[n](_ => Null);
    for i := 0 to n - 1
      invariant forall k :: 0 <= k < i ==> adjacency[k] == Assigned([k + 1])
      invariant forall k :: i <= k < n ==> adjacency[k] == Null
    {
      var next := i + 1;
      adjacency[i] := Assigned([next]);
    }
    adjacency[n - 1] := Assigned([]);
    var a := Lists(adjacency[..]);
    PathShape(a);
    g := Sparse(a);
  }
}
