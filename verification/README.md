# TSP solvers: Kruskal, MST-preorder approximation and Held–Karp, modelled in Dafny

The repository solves the travelling salesman problem on an `int[][]` distance matrix in two
ways. Both return a tour and its cost as a `long`.

- `ApproxSolver` (present twice, in `src/tsp/` and `src/`, with the same logic) computes a
  minimum spanning tree with Kruskal's algorithm. It lists the tree's vertices in depth-first
  preorder from vertex 0, closes the cycle with 0, and sums the matrix weights along the tour.
  - The copy in `src/` (default package) calls `src/Kruskal.java`.
  - The copy in `src/tsp/` is in package `tsp` and imports no `Kruskal`, so it calls a
    `tsp.Kruskal` class. That class is not part of this model; see "## Left out".
- `ExactSolver` (`src/tsp/ExactSolver.java`) runs the Held–Karp bitmask dynamic programme over
  `dp[mask][u]` and `prev[mask][u]`. It then closes the cycle and rebuilds the tour by walking
  `prev` backwards.

The model follows the Java code:

- `Tours.dfy`: the matrix, the `Solution(tour, cost)` record, tour cost, permutations and
  Hamiltonian cycles.
- `Graphs.dfy`: the `Edge` record and connectivity of an edge list by walks.
- `DisjointSets.dfy`: the union-find structure as a value.
  - `find` is a function that returns the compressed structure together with the root.
  - `union` is a function built from two `find`s and the linking step.
  - Both are proved against `Root`, the root reached without compression.
- `Kruskal.dfy`: the code's own algorithm, proved against `Greedy`.
  - `buildMST` as written: pair enumeration, a stable sort by weight, and the union-find
    acceptance loop with its `break`.
  - `Greedy` is Kruskal's rule stated on connectivity alone.
- `ApproxSolver.dfy`: the adjacency lists in acceptance order, the recursive `dfs` (two
  mutually recursive functions that thread the `vis` flags and the output list), the cost
  loop, and `solve`.
  - `DepthFirstOrder` states the depth-first rule independently of `dfs`: each vertex after 0
    is the first unlisted entry in the list of the latest listed vertex that still has one.
  - The preorder is proved to be the only order that follows this rule.
- `Bits.dfy`: masks as natural numbers, with `Bit`, `Pow2` and clearing a bit.
- `HeldKarp.dfy`: the recurrence the tables hold once filled.
  - It is given as pure functions, `Dp`, `Prev`, `Relax` and `Close`.
  - It keeps the code's sentinel conventions and strict `<` tie-breaks.
  - It proves what the recurrence means: attainment by the recorded path, a lower bound over
    all simple paths, finiteness, and optimality of the closed cycle.
- `ExactSolver.dfy`: the three nested transition loops on tables held as lists of rows,
  proved entry by entry against `Dp`/`Prev`. It also holds the closing scan, the
  reconstruction loop, and `solve`.

Where the code departs from what its own comments (`// volta ao início`, "back to the start",
at `src/tsp/ExactSolver.java:67`) and the approximate solver's behaviour for n = 1 suggest, the
model follows the code:

- For n = 1 the exact solver returns an empty tour with cost `INF`, not the tour `[0, 0]`.
- When the cost is `INF` it raises no error: the tour is simply left empty.
- The reconstructed tour is `[0, 0, v1, …, last]`. The root is duplicated at the front, and
  the tour does not return to 0 at the end.

The first and the third are recorded under "## Findings", each with a corrected definition.

## Model

| member | source | states |
|---|---|---|
| `DisjointSets.Init` | src/Kruskal.java:20-23 | the new structure is valid, every element is its own parent with rank 0, and so every element is its own root |
| `DisjointSets.InitRoots` | src/Kruskal.java:20-23 | a new structure over n elements has exactly n sets |
| `DisjointSets.Root` | src/Kruskal.java:26 | following parents ends at a root; a non-root's root has strictly greater rank, the measure that makes `find` terminate |
| `DisjointSets.RedirectValid` | src/Kruskal.java:26 | pointing an element straight at its own root (path compression) keeps the rank invariant and every element's root |
| `DisjointSets.Find` | src/Kruskal.java:25-28 | `find(x)` returns x's root r with `parent[r] == r`, and afterwards `parent[x] == r`; ranks, roots and hence the partition are unchanged; a pointer only changes to its element's root |
| `DisjointSets.FindRoots` | src/Kruskal.java:25-28 | path compression leaves the set of roots unchanged |
| `DisjointSets.LinkStepSpec` | src/Kruskal.java:32-35 | linking two roots: nothing when equal; otherwise the lower-rank root goes under the other, `rb` under `ra` on a tie with only `rank[ra]` growing by one; the invariant is kept and only the two sets merge |
| `DisjointSets.Union` | src/Kruskal.java:30-36 | after `union(a, b)` the sets of a and b share the higher-rank root (`ra` on a tie, unchanged when already equal), every other element keeps its root, and ranks change only on a tie |
| `DisjointSets.UnionSameSet` | src/Kruskal.java:30-36 | two elements share a set after `union(a, b)` exactly when they did before or one was with a and the other with b: no other sets merge, and a and b end up together |
| `DisjointSets.UnionRoots` | src/Kruskal.java:30-36 | `union` of two different sets removes exactly one root, and of one set none |
| `Graphs.ConnectedAppend` | src/Kruskal.java:51-54 | adding an edge connects exactly the old connections plus those crossing the new edge |
| `Kruskal.RowEdges` | src/Kruskal.java:43-45 | the inner loop for row i yields exactly the edges (i, j, `dist[i][j]`) for i < j < n, in increasing j |
| `Kruskal.EdgesBefore` | src/Kruskal.java:42-46 | the first i rows yield exactly the edges with u < i, lexicographically increasing, i(2n-i-1)/2 of them |
| `Kruskal.PairEdges` | src/Kruskal.java:41-46 | the edge list holds exactly the pairs i < j with weight `dist[i][j]`, in lexicographic order, n(n-1)/2 of them |
| `Kruskal.Insert` | src/Kruskal.java:47 | inserting an edge into a weight-sorted list keeps it sorted, adds exactly that edge, and places it after every edge of its weight |
| `Kruskal.SortByWeight` | src/Kruskal.java:47 | the result is sorted by weight, a permutation of the input, and stable: the edges of each weight keep their input order |
| `Kruskal.StableSortUnique` | src/Kruskal.java:47 | two weight-sorted lists with the same edges of every weight in the same order are equal, so every stable sort by weight gives the same list |
| `Kruskal.MirrorsUnion` | src/Kruskal.java:52-54 | uniting the endpoints of an accepted edge keeps "same set" equal to "connected by the accepted edges" |
| `Kruskal.ForestAppend` | src/Kruskal.java:52-54 | an edge accepted because its endpoints were not connected keeps the accepted edges free of cycles |
| `Kruskal.ProgressFinds` | src/Kruskal.java:52 | the two `find` calls keep the loop invariant, and their roots differ exactly when the accepted edges do not connect the endpoints |
| `Kruskal.ProgressReject` | src/Kruskal.java:52 | skipping an edge whose endpoints are connected keeps the loop invariant, including agreement with Kruskal's rule |
| `Kruskal.ProgressAccept` | src/Kruskal.java:52-55 | accepting an edge between different sets keeps the loop invariant: one set fewer, no cycle, and agreement with Kruskal's rule |
| `Kruskal.AllProcessed` | src/Kruskal.java:51-57 | once every pair of the matrix is processed, all vertices lie in one set, so exactly n-1 edges were accepted |
| `Kruskal.ProgressDone` | src/Kruskal.java:50-58 | whether the loop ends by `break` at n-1 edges or by running out of edges, the accepted list is Kruskal's rule's choice, has n-1 edges and connects every pair |
| `Kruskal.Consider` | src/Kruskal.java:52-54 | one loop iteration accepts the edge exactly when the accepted edges do not yet connect its endpoints, and keeps the loop invariant |
| `Kruskal.AcceptEdges` | src/Kruskal.java:49-58 | the acceptance loop over the sorted edges returns Kruskal's rule's choice: n-1 matrix edges, each closing no cycle, connecting every pair of vertices |
| `Kruskal.GreedyFrom` | src/Kruskal.java:54 | Kruskal's rule only takes edges that are candidates |
| `Kruskal.KruskalTree` | src/Kruskal.java:39-58 | every edge of the tree `buildMST` selects is a pair (i, j) with i < j of the matrix and its weight |
| `Kruskal.BuildMst` | src/Kruskal.java:39-59 | for n >= 1 the result is Kruskal's rule over the stable-sorted pairs: exactly n-1 matrix edges, a forest, spanning all of 0..n-1 |
| `ApproxSolver.NeighboursAdjacent` | src/ApproxSolver.java:14-17 | y is in x's adjacency list exactly when some tree edge joins x and y, in either direction |
| `ApproxSolver.AdjacencyOf` | src/ApproxSolver.java:12-17 | the adjacency lists are n lists of vertices below n that hold exactly the tree's adjacencies |
| `ApproxSolver.BuildAdjacency` | src/tsp/ApproxSolver.java:22-27 | the loop that appends v to `adj[u]` and then u to `adj[v]` for each tree edge, in acceptance order, builds exactly those lists, and nothing else is added |
| `ApproxSolver.EmitKeepsConsistent` | src/tsp/ApproxSolver.java:47-48 | flagging and emitting a new vertex keeps "flagged" equal to "emitted" and the output free of repeats |
| `ApproxSolver.Dfs` | src/tsp/ApproxSolver.java:46-52 | `dfs(u)` on an unflagged u emits u first, keeps the earlier output, emits no vertex twice, flags exactly what it emits, and leaves every newly flagged vertex with all its neighbours flagged |
| `ApproxSolver.DfsList` | src/ApproxSolver.java:35-37 | the neighbour loop visits only unflagged neighbours, after which every listed neighbour is flagged, with the same no-repeat and closure guarantees |
| `ApproxSolver.Preorder` | src/ApproxSolver.java:19-21 | the preorder from 0 starts at 0, stays below n and has no repeats |
| `ApproxSolver.DfsDepthFirst` | src/tsp/ApproxSolver.java:46-52 | every vertex `dfs(u)` emits after u follows the depth-first rule: it is the first not-yet-emitted entry in the list of the latest emitted vertex whose list still has one |
| `ApproxSolver.DfsListDepthFirst` | src/tsp/ApproxSolver.java:49-51 | scanning w's list from some entry on, with the earlier entries already flagged and every vertex emitted after w finished, each vertex the loop emits follows the depth-first rule, w being the latest vertex with unemitted neighbours whenever a visit starts |
| `ApproxSolver.VisitDepthFirst` | src/tsp/ApproxSolver.java:49-50 | the visit `if (!vis[v]) dfs(v)` starts for the first unflagged entry of w's list, so v itself and everything the visit emits follow the depth-first rule |
| `ApproxSolver.PreorderIsDepthFirst` | src/tsp/ApproxSolver.java:30-32 | the preorder from 0 is the depth-first order of the lists: it starts at 0, each later vertex follows the depth-first rule with neighbours taken in list order, and at the end no emitted vertex has an unemitted neighbour |
| `ApproxSolver.DepthFirstOrderUnique` | src/tsp/ApproxSolver.java:46-52 | given adjacency lists have exactly one depth-first order from 0, so the rule determines the preorder completely |
| `ApproxSolver.ForkPreorder` | src/tsp/ApproxSolver.java:46-52 | on the lists `[[1,2],[0,3],[0],[1]]` the preorder is [0, 1, 3, 2], and the breadth-first order [0, 1, 2, 3] is not a depth-first order |
| `ApproxSolver.PreorderDepthFirst` | src/tsp/ApproxSolver.java:22-32 | in the preorder of a tree's adjacency lists, each vertex after 0 hangs by a tree edge off an earlier vertex, and every vertex listed between the two already has all its tree neighbours listed |
| `ApproxSolver.ApproxTourDepthFirst` | src/tsp/ApproxSolver.java:19-35 | the returned tour without its closing 0 is the depth-first order of the adjacency lists of Kruskal's tree, and each vertex in it hangs off an earlier one as in a depth-first search of the tree |
| `ApproxSolver.ClosedReaches` | src/tsp/ApproxSolver.java:30-32 | a walk from a flagged vertex ends at a flagged vertex when every flagged vertex has its neighbours flagged |
| `ApproxSolver.SpanningPreorder` | src/ApproxSolver.java:19-21 | when the tree connects 0 to every vertex, the preorder is a permutation of 0..n-1 |
| `ApproxSolver.SumCost` | src/ApproxSolver.java:25-29 | the cost loop returns the sum of `dist[tour[i]][tour[i+1]]` over consecutive entries |
| `ApproxSolver.Solve` | src/tsp/ApproxSolver.java:15-43 | the tour is the preorder of Kruskal's tree closed with 0, it is a Hamiltonian cycle starting and ending at 0, and the cost is its sum of weights |
| `ApproxSolver.SingleVertex` | src/tsp/ApproxSolver.java:16-42 | for n = 1 the tour is [0, 0] and the cost is `dist[0][0]` |
| `HeldKarp.RelaxMin` | src/tsp/ExactSolver.java:38-41 | the best relaxation of a state is at most `INF` and at most every finite predecessor's cost plus the edge |
| `HeldKarp.RelaxChoice` | src/tsp/ExactSolver.java:29-41 | a finite best relaxation comes from a finite predecessor u in the mask without v, with the value `dp[mask ^ (1<<v)][u] + dist[u][v]`; every earlier predecessor is strictly worse (strict `<` keeps the first) |
| `HeldKarp.FiniteState` | src/tsp/ExactSolver.java:29-41 | a finite state other than the start has v in its mask, a predecessor in the mask without v that is finite, and the recorded cost is that predecessor's cost plus the edge |
| `HeldKarp.WalkAttains` | src/tsp/ExactSolver.java:25-41 | every finite state is the cost of the simple path that `prev` records from 0 over exactly the mask to v |
| `HeldKarp.DpLowerBound` | src/tsp/ExactSolver.java:29-44 | no simple path from 0 over exactly the mask to v is cheaper than the table entry |
| `HeldKarp.DpFinite` | src/tsp/ExactSolver.java:29-44 | with Java-int weights every state whose mask holds 0 and v (v > 0) is reached, so its entry is below `INF` |
| `HeldKarp.CloseMin` | src/tsp/ExactSolver.java:47-55 | `bestCost` is at most `INF` and at most `dp[full][u] + dist[u][0]` for every u in 1..n-1 |
| `HeldKarp.CloseChoice` | src/tsp/ExactSolver.java:47-55 | `last` stays -1 exactly when nothing beats `INF`; otherwise it is the smallest u attaining `bestCost` |
| `HeldKarp.CloseFinite` | src/tsp/ExactSolver.java:47-55 | for n >= 2 the closing scan finds a finite cost and a `last` in 1..n-1 |
| `HeldKarp.ClosedWalkAttains` | src/tsp/ExactSolver.java:47-68 | for n >= 2 the path recorded for (full, last), closed back to 0, is a Hamiltonian cycle costing exactly `bestCost` |
| `HeldKarp.CloseLowerBound` | src/tsp/ExactSolver.java:47-55 | `bestCost` is no greater than the cost of any Hamiltonian cycle through 0 |
| `HeldKarp.ExactOptimal` | src/tsp/ExactSolver.java:47-68 | for n >= 2 `bestCost` is finite, attained by the recorded path closed back to 0, which is a Hamiltonian cycle, and no Hamiltonian cycle is cheaper |
| `ExactSolver.InitialTables` | src/tsp/ExactSolver.java:21-26 | after initialisation only `dp[1][0]` is finite (0) with `prev[1][0] = -1`, which matches the recurrence before any transition |
| `ExactSolver.RelaxSuccessors` | src/tsp/ExactSolver.java:34-42 | the inner loop for a finite state (mask, u) performs exactly the relaxations from u into every (mask + 2^v, v) with v outside mask |
| `ExactSolver.ProcessMask` | src/tsp/ExactSolver.java:30-43 | one mask's iteration relaxes from every finite state of that mask in ascending u, so the tables hold the recurrence up to the next mask |
| `ExactSolver.FillTables` | src/tsp/ExactSolver.java:19-44 | once filled, every `dp[mask][v]` equals the Held–Karp recurrence `Dp` and every `prev[mask][v]` equals `Prev` |
| `ExactSolver.CloseScan` | src/tsp/ExactSolver.java:46-55 | the closing scan yields the closing choice `Close`: the first u in 1..n-1 with the strictly smallest `dp[full][u] + dist[u][0]`, or `INF` and -1 when n = 1 |
| `ExactSolver.Reconstructed` | src/tsp/ExactSolver.java:57-69 | the as-written tour is empty exactly when `bestCost` is `INF` (always for n = 1); otherwise it has n+1 entries `[0, 0, v1, …, last]`, and dropping the front 0 and appending 0 gives an optimal Hamiltonian cycle of cost `bestCost` |
| `ExactSolver.Reconstruct` | src/tsp/ExactSolver.java:58-68 | walking `prev` back from (full, last), clearing one bit per step until the start state's -1, then appending 0 and reversing, yields 0 followed by the recorded path |
| `ExactSolver.Solve` | src/tsp/ExactSolver.java:17-72 | the cost is the closing scan's `bestCost` and the tour the as-written reconstruction; for n = 1 the result is an empty tour with `INF`; for n >= 2 the tour is `[0, 0, …]`, and its tail closed with 0 is a Hamiltonian cycle whose cost is `bestCost`, no greater than any Hamiltonian cycle's |
| `ExactSolver.ReconstructionCounterexample` | src/tsp/ExactSolver.java:58-68 | for the matrix [[0,5],[5,0]] the as-written tour is [0, 0, 1]; its consecutive distances sum to 5 while the reported cost is 10 |
| `ExactSolver.CorrectedSolution` | src/tsp/ExactSolver.java:47-71 | the intended result is a Hamiltonian cycle that starts and ends at 0, whose reported cost is its own and no greater than any Hamiltonian cycle's, including [0, 0] with `dist[0][0]` for n = 1 |
| `ExactSolver.SingleVertexCycles` | src/tsp/ExactSolver.java:47-55 | with one vertex, [0, 0] is the only Hamiltonian cycle |

## Left out

- `src/Main.java`, `src/MatrixReader.java` and the `TSPSolver` interfaces are left out. They
  cover the menu, file reading, parsing, timing and report writing, all of which are I/O. The
  solution record is modelled as `Solution(tour, cost)`.
- Java `long` overflow is not modelled; integers are unbounded. `INF` is the constant
  `Long.MAX_VALUE / 4`.
  - For the exact solver, `HeldKarp.PathCostBound` shows that every simple-path cost lies far
    inside ±`INF`.
  - The approximate solver's sum of n+1 Java ints cannot overflow a `long` at any matrix size
    a program can allocate.
- Java recursion depth in `dfs` and `find` is not modelled, and neither is memory exhaustion
  of the `O(n·2ⁿ)` tables.
- Every operation takes a square matrix. The code also accepts rows longer than n: it only
  indexes columns below `dist.length`, so it ignores the extra entries. The model leaves that
  case out. Only rows shorter than n can make the code crash.
- `tsp.Kruskal`, which `src/tsp/ApproxSolver.java` calls, is not part of this model. The model
  assumes it behaves exactly as `src/Kruskal.java`, which is what `Kruskal.BuildMst` models.
- Inputs the code crashes on are excluded by preconditions; no error type is invented.
  - `Kruskal.BuildMst` and `ApproxSolver.Solve` require n >= 1. For n = 0, `new ArrayList<>(n - 1)`
    throws, and so would `vis[0]`.
  - `ExactSolver.Solve` requires 1 <= n <= 30 and Java-int entries. Java reduces an `int`
    shift distance modulo 32, so `N = 1 << n` is `2^(n mod 32)` as a signed 32-bit value, and
    the code throws for every other n:
    - For n = 0, and for n mod 32 = 0, N is 1, so `dp[1]` (line 25) is out of bounds.
    - For n mod 32 = 31, N is negative, so the allocation on line 21 fails.
    - For n >= 32 with 1 <= n mod 32 <= 30, the transition from mask 1 to v = n mod 32
      reads `dp[1 | N]` (line 38), which is out of bounds.
- `Kruskal.SortByWeight`: the library sort's algorithm is not modelled. Instead it is proved
  that any stable sort by weight returns the same list (`Kruskal.StableSortUnique`), so the
  model uses insertion sort.
- The 2-approximation guarantee under the triangle inequality is not proved. Neither is MST
  minimality by the cut property. The code checks neither, and the model proves the tour's
  shape and cost exactly instead.

## Findings

| source | as written | input that shows it | evidently intended | confidence | as-written member | corrected member |
|---|---|---|---|---|---|---|
| src/tsp/ExactSolver.java:58-68 | the walk back collects `last, …, v1, 0`, then `tour.add(0)` appends a second 0 and the reversal puts both zeros at the front: `[0, 0, v1, …, last]`, which does not return to 0 and whose consecutive distances do not sum to the reported cost | `[[0,5],[5,0]]`: tour [0, 0, 1] summing to 5, reported cost 10 | the closed cycle `[0, v1, …, last, 0]` of cost `bestCost` | not executed | `ExactSolver.ReconstructionCounterexample` | `ExactSolver.CorrectedSolution` |
| src/tsp/ExactSolver.java:47-71 | for n = 1 the closing loop over u = 1..n-1 is empty, so the result is an empty tour with cost `INF` | `[[0]]`: empty tour, cost `Long.MAX_VALUE / 4` | the tour [0, 0] with cost `dist[0][0]`, as the approximate solver returns | not executed | `ExactSolver.Solve` | `ExactSolver.CorrectedSolution` |
