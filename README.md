# locus digraphs in Dafny

This project models the graph core of locus. It has two parts.

- The `IDigraph` contract describes an unlabeled directed graph. Its vertices are the indices `0 .. order-1`, and it answers `order`, `size`, `containsEdge`, `outNeighbours` and `inNeighbours`.
- The `BasicDigraphFactory` builds three standard families: the complete digraph, the directed cycle and the directed path.

`digraph.dfy` (module `Digraphs`) holds the contract. A `Digraph` is either `Dense(matrix)`, a square boolean matrix, or `Sparse(adjacency)`, one out-neighbour list per vertex. Every query is defined for both representations, following the interface's own wording:

- `ContainsEdge(g, x, y)` has `x` as the source and `y` as the target.
- `OutNeighbours(g, v)` holds exactly the `w` for which `(v, w)` is an edge.
- `InNeighbours(g, v)` holds exactly the `w` for which `(w, v)` is an edge.
- `Size(g)` is the number of ordered vertex pairs that are edges.

A dense graph produces its out-neighbours by scanning its row. A sparse graph hands back its stored list. Both produce in-neighbours by scanning the sources in ascending order.

`factory.dfy` (module `Factory`) holds the three builders. Each one allocates an array and fills it slot by slot in a loop, as the Java code does. Each returns the filled contents as a `Digraph` value. The postconditions describe the result through the contract: order, out-neighbours, in-neighbours, size, and that every endpoint is a vertex.

A Java `List[]` starts out with every slot null. The model records this with `Slot = Null | Assigned(list)`. The builders prove that every slot is assigned before the graph is formed. In particular, `pathDigraph` needs its explicit final `adjacency[n-1] = List.of()` for this.

The code has no guard for `n <= 0` in `cycleDigraph` and `pathDigraph`, and the model follows the code:
- `cycleDigraph(0)` never runs its loop body. It therefore never evaluates `% 0` and yields the empty graph, so the model admits `n = 0` there.
- `pathDigraph(0)` indexes `adjacency[-1]`, so the model requires `n >= 1`.
- A negative `n` fails at array allocation in all three builders, so the model requires `n >= 0`.

## Model

| member | source | states |
|---|---|---|
| Digraphs.OrderCountsVertices | src/java/locus/graph/IDigraph.java:10-15 | the vertex set is the indices `0 .. order-1`, and it has exactly `Order(g)` members |
| Digraphs.SizeCountsEdges | src/java/locus/graph/IDigraph.java:17-22 | `Size(g)` equals the number of edges, which is the cardinality of the set of pairs `(x, y)` with `ContainsEdge(g, x, y)`; it is at most `order*order` |
| Digraphs.DenseSizeIsTrueCells | src/java/locus/graph/IDigraph.java:17-22 | for a dense matrix, the number of edges is the number of true cells |
| Digraphs.SparseSizeIsTotalLength | src/java/locus/graph/IDigraph.java:17-22 | for sparse lists without repeated targets, the number of edges is the total length of the lists |
| Digraphs.Targets | src/java/locus/graph/IDigraph.java:34-42 | the scan of row `v` up to `k` holds exactly the `w < k` with `(v, w)` an edge, in strictly ascending order |
| Digraphs.Sources | src/java/locus/graph/IDigraph.java:44-52 | the scan of the sources up to `k` holds exactly the `u < k` with `(u, v)` an edge, in strictly ascending order |
| Digraphs.OutNeighbours | src/java/locus/graph/IDigraph.java:34-42 | `w` is in `OutNeighbours(g, v)` iff `w` is a vertex and `ContainsEdge(g, v, w)` |
| Digraphs.InNeighbours | src/java/locus/graph/IDigraph.java:44-52 | `w` is in `InNeighbours(g, v)` iff `w` is a vertex and `ContainsEdge(g, w, v)`; the list is ascending |
| Digraphs.Duality | src/java/locus/graph/IDigraph.java:24-52 | `w` is in `OutNeighbours(g, v)` iff `v` is in `InNeighbours(g, w)`, and both hold iff the directed edge `(v, w)` exists |
| Factory.CompleteShape | src/java/locus/graph/factories/BasicDigraphFactory.java:9-15 | in a dense graph where every ordered pair is an edge, there are `order*order` edges, and every vertex's out- and in-neighbours are `[0, 1, .., order-1]` |
| Factory.CompleteDigraph | src/java/locus/graph/factories/BasicDigraphFactory.java:8-16 | for `n >= 0`, the result is a dense `n x n` graph with order `n`; every pair, self-loops included, is an edge; size is `n*n`; every neighbour list is `[0 .. n-1]`; `n = 0` gives the empty graph |
| Factory.NextWraps | src/java/locus/graph/factories/BasicDigraphFactory.java:22 | `(i+1) % n` is `i+1`, except that it is `0` for the last vertex |
| Factory.NextPrevious | src/java/locus/graph/factories/BasicDigraphFactory.java:21-24 | on the `n`-cycle, `(u+1) % n == j` iff `u == (j-1+n) % n`, so the successor and predecessor maps invert each other |
| Factory.CycleValid | src/java/locus/graph/factories/BasicDigraphFactory.java:22-23 | the cycle's neighbour values all lie in `[0, n)` |
| Factory.CycleShape | src/java/locus/graph/factories/BasicDigraphFactory.java:21-24 | in the cycle adjacency, vertex `j`'s only in-neighbour is `(j-1+n) % n`, and there are `n` edges |
| Factory.UnitListsLength | src/java/locus/graph/factories/BasicDigraphFactory.java:23 | `n` single-element lists hold `n` entries in total |
| Factory.CycleDigraph | src/java/locus/graph/factories/BasicDigraphFactory.java:18-27 | for `n >= 0`, the result is sparse with order `n` and all endpoints in range; `OutNeighbours(i) == [(i+1) % n]`; `InNeighbours(j) == [(j-1+n) % n]`; size is `n`; `n = 0` gives `[]`; `n = 1` gives the self-loop `[[0]]` |
| Factory.PathShape | src/java/locus/graph/factories/BasicDigraphFactory.java:32-39 | in the path adjacency, vertex 0 has no in-neighbour, each `j > 0` has only `j-1`, and there are `n-1` edges |
| Factory.PathIsOneWay | src/java/locus/graph/factories/BasicDigraphFactory.java:33-39 | in the path, `(x, y)` is an edge iff `y == x+1`, and no edge has its reverse, which shows that edge direction matters |
| Factory.PathDigraph | src/java/locus/graph/factories/BasicDigraphFactory.java:29-43 | for `n >= 1`, the result is sparse with order `n`, no null slot and all endpoints in range; `OutNeighbours(i) == [i+1]` for `i < n-1`; `OutNeighbours(n-1) == []`; `InNeighbours(0) == []` and `InNeighbours(j) == [j-1]`; size is `n-1`; `n = 1` gives `[[]]` |

## Left out

- The bodies of `DenseDigraph` and `SparseDigraph` (package `locus.graph.base`) are not part of this model. Each query is defined as the plain function of the stored matrix or lists that the interface's wording describes.
- Digraphs.Size: for a sparse list that repeats a target, this counts distinct edges, because the interface promises "the number of edges". How `SparseDigraph.size` treats such duplicates is not modelled.
- Digraphs.OutNeighbours: the contract gives membership only. The interface fixes no order. The model's choices (row scan for dense, the stored list for sparse) are not claimed to match the unseen class bodies.
- Digraphs.InNeighbours: the ascending scan that lists each source once is the model's choice. The interface fixes membership only, and the scan is not claimed to match `DenseDigraph` or `SparseDigraph`. A sparse list that repeats a target still yields that source once (for example `[[0, 0]]` gives in-neighbours `[0]` for vertex 0), whereas a scan that records a source once per matching entry would give `[0, 0]`. The builders' exact in-neighbour lists, and the complete digraph's `[0 .. n-1]` lists, hold for this scan.
- Queries with an out-of-range vertex are excluded by `requires`. The interface says nothing about them.
- Java exceptions are not modelled as objects. `NegativeArraySizeException` becomes `requires n >= 0`. The `ArrayIndexOutOfBoundsException` of `pathDigraph(0)` becomes `requires n >= 1`.
- Row aliasing is not modelled. In `completeDigraph`, `Arrays.fill(matrix, rowArray)` makes every row the same array object. The model stores a copy of that row's value in each slot. Because the graph is never mutated, the two cannot be told apart.
- 32-bit overflow of `i+1` and `n*n` is not modelled. Integers are mathematical.
- The immutability and generic typing of `List.of` / raw `List[]` are modelled as plain `seq<int>` values.
