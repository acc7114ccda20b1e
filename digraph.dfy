/**
 The digraph contract of locus: an unlabeled directed graph whose vertices are
 the indices 0 .. order-1, queried through `Order`, `Size`, `ContainsEdge`,
 `OutNeighbours` and `InNeighbours`.

 The contract has two representations, and every query is defined for both:
 a dense square boolean matrix and a sparse list of out-neighbours per vertex.
 */
module Digraphs {

  /** A digraph is stored either as an adjacency matrix (cell [x][y] holds
      whether (x,y) is an edge) or as per-vertex out-neighbour lists. */
  datatype Digraph =
    | Dense(matrix: seq<seq<bool>>)
    | Sparse(adjacency: seq<seq<int>>)

  /** The number of vertices. */
  function Order(g: Digraph): nat
  {
    match g
    case Dense(m) => |m|
    case Sparse(a) => |a|
  }

  predicate IsVertex(g: Digraph, v: int)
  {
    0 <= v < Order(g)
  }

  /** The vertex set: the indices 0 .. Order(g)-1. */
  ghost function Vertices(g: Digraph): set<int>
  {
    // the explicit bound makes the set finite; IsVertex gives the quantifier a trigger
    set v | 0 <= v < Order(g) && IsVertex(g, v)
  }

  /** Well-formed storage: a dense matrix is square, and a sparse list only
      names vertices of the graph. */
  predicate Valid(g: Digraph)
  {
    match g
    case Dense(m) => forall x :: 0 <= x < |m| ==> |m[x]| == |m|
    case Sparse(a) => forall x, j :: 0 <= x < |a| && 0 <= j < |a[x]| ==> 0 <= a[x][j] < |a|
  }

  /** Whether (x,y) is an edge: x is the source and y the target. */
  predicate ContainsEdge(g: Digraph, x: int, y: int)
    requires Valid(g) && IsVertex(g, x) && IsVertex(g, y)
  {
    match g
    case Dense(m) => m[x][y]
    case Sparse(a) => y in a[x]
  }

  /** The edge set: every ordered pair of vertices that is an edge. */
  ghost function Edges(g: Digraph): set<(int, int)>
    requires Valid(g)
  {
    set x, y | 0 <= x < Order(g) && 0 <= y < Order(g) && ContainsEdge(g, x, y) :: (x, y)
  }

  predicate Increasing(s: seq<int>)
  {
    forall i, j :: 0 <= i < j < |s| ==> s[i] < s[j]
  }

  predicate Distinct(s: seq<int>)
  {
    forall i, j :: 0 <= i < j < |s| ==> s[i] != s[j]
  }

  /** The targets w < k of edges leaving v, in ascending order: a scan of row v. */
  function Targets(g: Digraph, v: int, k: nat): (r: seq<int>)
    requires Valid(g) && IsVertex(g, v) && k <= Order(g)
    ensures forall w :: w in r <==> 0 <= w < k && ContainsEdge(g, v, w)
    ensures forall i :: 0 <= i < |r| ==> r[i] < k
    ensures Increasing(r)
  {
    if k == 0 then []
    else
      var r' := Targets(g, v, k - 1);
      if ContainsEdge(g, v, k - 1) then r' + [k - 1] else r'
  }

  /** The sources u < k of edges entering v, in ascending order: a scan of
      column v, or of every vertex's out-neighbour list. */
  function Sources(g: Digraph, v: int, k: nat): (r: seq<int>)
    requires Valid(g) && IsVertex(g, v) && k <= Order(g)
    ensures forall u :: u in r <==> 0 <= u < k && ContainsEdge(g, u, v)
    ensures forall i :: 0 <= i < |r| ==> r[i] < k
    ensures Increasing(r)
  {
    if k == 0 then []
    else
      var r' := Sources(g, v, k - 1);
      if ContainsEdge(g, k - 1, v) then r' + [k - 1] else r'
  }

  /** The out-neighbours of v: exactly the W with (v,W) an edge.  A dense graph
      scans its row; a sparse graph hands back its stored list. */
  function OutNeighbours(g: Digraph, v: int): (r: seq<int>)
    requires Valid(g) && IsVertex(g, v)
    ensures forall w :: w in r <==> IsVertex(g, w) && ContainsEdge(g, v, w)
  {
    match g
    case Dense(_) => Targets(g, v, Order(g))
    case Sparse(a) =>
      assert forall w :: w in a[v] ==> IsVertex(g, w) by {
        forall w | w in a[v] ensures IsVertex(g, w) {
          var j :| 0 <= j < |a[v]| && a[v][j] == w;
        }
      }
      a[v]
  }

  /** The in-neighbours of v: exactly the W with (W,v) an edge. */
  function InNeighbours(g: Digraph, v: int): (r: seq<int>)
    requires Valid(g) && IsVertex(g, v)
    ensures forall w :: w in r <==> IsVertex(g, w) && ContainsEdge(g, w, v)
    ensures Increasing(r)
  {
    Sources(g, v, Order(g))
  }

  /** The number of targets w < m of edges leaving x. */
  function CountTargets(g: Digraph, x: int, m: nat): nat
    requires Valid(g) && IsVertex(g, x) && m <= Order(g)
  {
    if m == 0 then 0
    else CountTargets(g, x, m - 1) + (if ContainsEdge(g, x, m - 1) then 1 else 0)
  }

  /** The number of edges whose source is below k. */
  function CountEdgesFrom(g: Digraph, k: nat): nat
    requires Valid(g) && k <= Order(g)
  {
    if k == 0 then 0
    else CountEdgesFrom(g, k - 1) + CountTargets(g, k - 1, Order(g))
  }

  /** The number of edges. */
  function Size(g: Digraph): nat
    requires Valid(g)
  {
    CountEdgesFrom(g, Order(g))
  }

  // ---------------------------------------------------------------------------
  // The vertex set

  /** The vertices below k. */
  ghost function VerticesBelow(g: Digraph, k: nat): set<int>
  {
    set v | 0 <= v < k && IsVertex(g, v)
  }

  lemma {:induction false} VerticesBelowCard(g: Digraph, k: nat)
    requires k <= Order(g)
    ensures |VerticesBelow(g, k)| == k
  {
    if k > 0 {
      VerticesBelowCard(g, k - 1);
      assert VerticesBelow(g, k) == VerticesBelow(g, k - 1) + {k - 1};
    }
  }

  /** There are exactly Order(g) vertices. */
  lemma OrderCountsVertices(g: Digraph)
    ensures |Vertices(g)| == Order(g)
  {
    VerticesBelowCard(g, Order(g));
    assert VerticesBelow(g, Order(g)) == Vertices(g);
  }

  // ---------------------------------------------------------------------------
  // Size is the number of edges

  ghost function TargetPairs(g: Digraph, x: int, m: nat): set<(int, int)>
    requires Valid(g) && IsVertex(g, x) && m <= Order(g)
  {
    set y | 0 <= y < m && ContainsEdge(g, x, y) :: (x, y)
  }

  ghost function EdgesFrom(g: Digraph, k: nat): set<(int, int)>
    requires Valid(g) && k <= Order(g)
  {
    set x, y | 0 <= x < k && 0 <= y < Order(g) && ContainsEdge(g, x, y) :: (x, y)
  }

  lemma {:induction false} TargetPairsCard(g: Digraph, x: int, m: nat)
    requires Valid(g) && IsVertex(g, x) && m <= Order(g)
    ensures |TargetPairs(g, x, m)| == CountTargets(g, x, m)
  {
    if m > 0 {
      TargetPairsCard(g, x, m - 1);
      var last := if ContainsEdge(g, x, m - 1) then {(x, m - 1)} else {};
      assert TargetPairs(g, x, m) == TargetPairs(g, x, m - 1) + last;
      assert (x, m - 1) !in TargetPairs(g, x, m - 1);
    }
  }

  lemma {:induction false} EdgesFromCard(g: Digraph, k: nat)
    requires Valid(g) && k <= Order(g)
    ensures |EdgesFrom(g, k)| == CountEdgesFrom(g, k)
  {
    if k > 0 {
      EdgesFromCard(g, k - 1);
      TargetPairsCard(g, k - 1, Order(g));
      var earlier, row := EdgesFrom(g, k - 1), TargetPairs(g, k - 1, Order(g));
      assert EdgesFrom(g, k) == earlier + row;
      assert earlier * row == {} by {
        forall e | e in row ensures e !in earlier {
          assert e.0 == k - 1;
        }
      }
    }
  }

  /** Size(g) is the number of edges of g. */
  lemma SizeCountsEdges(g: Digraph)
    requires Valid(g)
    ensures Size(g) == |Edges(g)|
    ensures Size(g) <= Order(g) * Order(g)
  {
    EdgesFromCard(g, Order(g));
    assert EdgesFrom(g, Order(g)) == Edges(g);
    var n := Order(g);
    var grid := Grid(n, n);
    assert grid == Edges(g) + (grid - Edges(g));
    GridCard(n, n);
  }

  ghost function Grid(k: nat, n: nat): set<(int, int)>
  {
    set x, y | 0 <= x < k && 0 <= y < n :: (x, y)
  }

  ghost function GridRow(x: int, n: nat): set<(int, int)>
  {
    set y | 0 <= y < n :: (x, y)
  }

  lemma {:induction false} GridRowCard(x: int, n: nat)
    ensures |GridRow(x, n)| == n
  {
    if n > 0 {
      GridRowCard(x, n - 1);
      assert GridRow(x, n) == GridRow(x, n - 1) + {(x, n - 1)};
    }
  }

  /** The pairs with first coordinate below k split into those below k-1 and row k-1. */
  lemma GridSplit(k: nat, n: nat)
    requires k > 0
    ensures Grid(k, n) == Grid(k - 1, n) + GridRow(k - 1, n)
    ensures Grid(k - 1, n) * GridRow(k - 1, n) == {}
  {
  }

  lemma {:induction false} GridCard(k: nat, n: nat)
    ensures |Grid(k, n)| == k * n
  {
    if k > 0 {
      GridCard(k - 1, n);
      GridRowCard(k - 1, n);
      GridSplit(k, n);
      assert (k - 1) * n + n == k * n;
    }
  }

  // ---------------------------------------------------------------------------
  // Size through the storage of each representation

  /** The number of true cells of a row. */
  function CountTrue(row: seq<bool>): nat
  {
    if row == [] then 0
    else CountTrue(row[..|row| - 1]) + (if row[|row| - 1] then 1 else 0)
  }

  /** The number of true cells of a matrix. */
  function TrueCells(m: seq<seq<bool>>): nat
  {
    if m == [] then 0
    else TrueCells(m[..|m| - 1]) + CountTrue(m[|m| - 1])
  }

  /** The total length of all out-neighbour lists. */
  function TotalLength(a: seq<seq<int>>): nat
  {
    if a == [] then 0
    else TotalLength(a[..|a| - 1]) + |a[|a| - 1]|
  }

  lemma {:induction false} DenseRowCount(m: seq<seq<bool>>, x: int, k: nat)
    requires Valid(Dense(m)) && 0 <= x < |m| && k <= |m|
    ensures CountTargets(Dense(m), x, k) == CountTrue(m[x][..k])
  {
    if k > 0 {
      DenseRowCount(m, x, k - 1);
      assert m[x][..k][..k - 1] == m[x][..k - 1];
    }
  }

  lemma {:induction false} DenseEdgeCount(m: seq<seq<bool>>, k: nat)
    requires Valid(Dense(m)) && k <= |m|
    ensures CountEdgesFrom(Dense(m), k) == TrueCells(m[..k])
  {
    if k > 0 {
      DenseEdgeCount(m, k - 1);
      DenseRowCount(m, k - 1, |m|);
      assert m[..k][..k - 1] == m[..k - 1];
      assert m[k - 1][..|m|] == m[k - 1];
    }
  }

  /** A dense digraph has as many edges as its matrix has true cells. */
  lemma DenseSizeIsTrueCells(m: seq<seq<bool>>)
    requires Valid(Dense(m))
    ensures Size(Dense(m)) == TrueCells(m)
  {
    DenseEdgeCount(m, |m|);
    assert m[..|m|] == m;
  }

  ghost function ListPairs(x: int, s: seq<int>): set<(int, int)>
  {
    set y | y in s :: (x, y)
  }

  lemma {:induction false} ListPairsCard(x: int, s: seq<int>)
    requires Distinct(s)
    ensures |ListPairs(x, s)| == |s|
  {
    if s != [] {
      assert Distinct(s[1..]) by {
        forall i, j | 0 <= i < j < |s[1..]| ensures s[1..][i] != s[1..][j] {
          assert s[1..][i] == s[i + 1] && s[1..][j] == s[j + 1];
        }
      }
      ListPairsCard(x, s[1..]);
      assert ListPairs(x, s) == {(x, s[0])} + ListPairs(x, s[1..]) by {
        assert forall y :: y in s <==> y == s[0] || y in s[1..];
      }
      assert s[0] !in s[1..] by {
        forall j | 0 <= j < |s[1..]| ensures s[1..][j] != s[0] {
          assert s[1..][j] == s[j + 1];
        }
      }
    }
  }

  lemma {:induction false} SparseEdgeCount(a: seq<seq<int>>, k: nat)
    requires Valid(Sparse(a)) && k <= |a|
    requires forall x :: 0 <= x < |a| ==> Distinct(a[x])
    ensures CountEdgesFrom(Sparse(a), k) == TotalLength(a[..k])
  {
    if k > 0 {
      var g := Sparse(a);
      SparseEdgeCount(a, k - 1);
      TargetPairsCard(g, k - 1, |a|);
      ListPairsCard(k - 1, a[k - 1]);
      var x := k - 1;
      assert TargetPairs(g, x, |a|) == ListPairs(x, a[x]) by {
        forall j | 0 <= j < |a[x]| ensures 0 <= a[x][j] < |a| {
        }
      }
      assert a[..k][..k - 1] == a[..k - 1];
    }
  }

  /** A sparse digraph whose lists hold no repeated target has as many edges
      as its lists have entries in total. */
  lemma SparseSizeIsTotalLength(a: seq<seq<int>>)
    requires Valid(Sparse(a))
    requires forall x :: 0 <= x < |a| ==> Distinct(a[x])
    ensures Size(Sparse(a)) == TotalLength(a)
  {
    SparseEdgeCount(a, |a|);
    assert a[..|a|] == a;
  }

  // ---------------------------------------------------------------------------
  // Out- and in-neighbours are dual

  /** W is an out-neighbour of V exactly when V is an in-neighbour of W. */
  lemma Duality(g: Digraph, v: int, w: int)
    requires Valid(g) && IsVertex(g, v) && IsVertex(g, w)
    ensures w in OutNeighbours(g, v) <==> v in InNeighbours(g, w)
    ensures w in OutNeighbours(g, v) <==> ContainsEdge(g, v, w)
  {
  }

  /** An increasing list with exactly one member is that member alone. */
  lemma {:induction false} IncreasingSingleton(r: seq<int>, p: int)
    requires Increasing(r)
    requires forall w :: w in r <==> w == p
    ensures r == [p]
  {
    assert p in r;
    assert r[0] in r && r[|r| - 1] in r;
  }

  /** A list with no member is empty. */
  lemma {:induction false} NoMembersEmpty(r: seq<int>)
    requires forall w :: w !in r
    ensures r == []
  {
    var w := if r == [] then 0 else r[0];
    assert r == [] || w in r;
  }
}
