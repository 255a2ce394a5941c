# GraphAlgorithms: depth-first search, topological order, strongly connected components, tree diameter

This project models the graph algorithms of the `mxh170027` package in Dafny and proves what they compute.

- **Depth-first engine.** `dfs`/`dfsVisit` of `StronglyConnectedComponents`, and the second copy in `TopologicalOrdering`, become imperative Dafny:
  - a class holding per-vertex arrays (`seen`, `parent`, `cno`);
  - a shared object holding the class-wide `vertexStack` and `componentNumber`;
  - recursive methods whose contracts say which vertices a visit pushes, in what order, with which parents and numbers.
- **Traversal specification.** It is stated on values:
  - `Forest` gives the trees a traversal grows: each root collects the vertices it reaches through unseen vertices.
  - `FinishOrder` is the property of the push sequence that both clients rely on.
- **Topological order, both variants.** Both return the reverse of a finish order of every vertex, and on an acyclic graph that is a topological order. Both document that they return null for a graph that is not a DAG, but neither fully checks (see Findings):
  - the `StronglyConnectedComponents` variant has no cycle test at all;
  - the `TopologicalOrdering` variant has only an in-degree gate. For a directed graph, starting from an empty stack, it returns null exactly when the graph is non-empty and every vertex has an in-edge; an undirected graph gets null whatever its in-degrees. Any cyclic graph with a vertex of in-degree 0 still gets a list.
- **Strongly connected components by the two-pass method.** After the call, two vertices carry the same component number exactly when each reaches the other. The final `componentNumber` is the number of strongly connected components.
- **Tree diameter by two sweeps.** The breadth-first search is a distance function given as a parameter. The farthest-vertex scan is proved to return the first vertex at the largest distance. Under the four-point condition, which distances in a tree satisfy, the second sweep's distance is the diameter.

Vertices are numbered 0..n-1, so the source's vertex k is vertex k-1 here. The graph (`rbk.Graph`, not part of this model) becomes a small class with the following members:
- the vertex count;
- the directed flag;
- out-lists in adjacency order;
- in-lists.

Iterating over the graph visits the vertices in increasing order.

The documentation of both `topologicalOrder1` methods says they return null when the graph is not a DAG. Starting from an empty shared stack, the code returns null for a directed graph only in the case the in-degree gate of `TopologicalOrdering` catches (described above). From a non-empty stack, for instance the n entries `stronglyConnectedComponents` or a public `depthFirstSearch` call leaves behind, the variants differ:
- the `StronglyConnectedComponents` variant always returns null, DAG or not;
- the `TopologicalOrdering` variant returns a list exactly when the stale entries plus its own pushes number n. On a graph without an in-degree-0 vertex it pushes nothing, so n stale entries come back popped as the order, whatever the graph.

The model follows the code.

Files:

| file | contents |
|---|---|
| `graph.dfy` | Graphs: paths, reachability, components, acyclicity, the `Graph` class |
| `paths.dfy` | Paths: path lemmas, permutations, sequence reversal |
| `dfs_theory.dfy` | DfsTheory: traversal bookkeeping, `FinishOrder`, `Forest` |
| `visit_theory.dfy` | VisitTheory: the state before, during and after one visit, and the root loop |
| `scc_theory.dfy` | SccTheory: why the second pass grows components |
| `topo_theory.dfy` | TopoTheory: topological orders, sources, counterexamples |
| `scc.dfy` | StronglyConnected: the `StronglyConnectedComponents` class |
| `topo.dfy` | Topological: the `TopologicalOrdering` class |
| `diameter.dfy` | TreeDiameter: `diameter` and `findFarthestNode` |

## Model

| member | source | states |
|---|---|---|
| Graphs.Graph.ReverseGraph | src/mxh170027/StronglyConnectedComponents.java:214-216 | every edge is turned round in place: out-lists and in-lists trade places and the graph stays well formed, so two calls restore it |
| Graphs.Graph.InDegree | src/mxh170027/TopologicalOrdering.java:88 | the in-degree of v is zero exactly when no vertex has an edge into v |
| StronglyConnected.SccStatics.constructor | src/mxh170027/StronglyConnectedComponents.java:29-30 | the class-wide stack starts empty and the component counter at 0 |
| StronglyConnected.StronglyConnectedComponents.constructor | src/mxh170027/StronglyConnectedComponents.java:35-63 | every vertex record starts with number 0, no parent, not seen |
| StronglyConnected.StronglyConnectedComponents.Reset | src/mxh170027/StronglyConnectedComponents.java:104-108 | after the first loop of `dfs` over an order naming every vertex, every vertex is unseen, numbered 0 and without parent |
| StronglyConnected.StronglyConnectedComponents.Dfs | src/mxh170027/StronglyConnectedComponents.java:101-116 | the stack grows by F, which lists every vertex exactly once in a finish order; every vertex ends seen; the trees are the forest over the order; each vertex's number names the tree holding it; only roots lack a parent; each parent link is an edge inside one tree; a child is pushed before its parent; `componentNumber` is the number of trees |
| StronglyConnected.StronglyConnectedComponents.VisitRoot | src/mxh170027/StronglyConnectedComponents.java:110-115 | an unseen order[i] gets the next number and a visit, which grows the next tree of the forest; a seen one is skipped, leaving the stack, trees, seen flags, parents, numbers and `componentNumber` unchanged; the pushes stay a finish order |
| StronglyConnected.StronglyConnectedComponents.DfsVisit | src/mxh170027/StronglyConnectedComponents.java:123-136 | the visit pushes exactly the vertices reachable from u through unseen vertices, u last; it marks them seen and gives them the current number; each except u gets a parent inside the visit along an edge; the push sequence stays a finish order |
| StronglyConnected.StronglyConnectedComponents.Enter | src/mxh170027/StronglyConnectedComponents.java:124-125 | u becomes seen with the current number and no other vertex changes |
| StronglyConnected.StronglyConnectedComponents.VisitNeighbours | src/mxh170027/StronglyConnectedComponents.java:128-134 | after the loop every out-neighbour of u is seen; everything pushed meanwhile is reachable from u through unseen vertices and carries the current number |
| StronglyConnected.StronglyConnectedComponents.VisitNeighbour | src/mxh170027/StronglyConnectedComponents.java:129-133 | an unseen neighbour gets u as its parent and a visit; either way it ends seen and the visit of u keeps its invariant |
| StronglyConnected.StronglyConnectedComponents.Finish | src/mxh170027/StronglyConnectedComponents.java:135 | pushing u, all of whose out-neighbours are seen, completes its visit: what it pushed is exactly u's white set, with u last |
| StronglyConnected.StronglyConnectedComponents.CreateFinishList | src/mxh170027/StronglyConnectedComponents.java:160-166 | the list is the stack read from the top, i.e. the push sequence reversed, and the stack ends empty |
| StronglyConnected.StronglyConnectedComponents.CheckDirected | src/mxh170027/StronglyConnectedComponents.java:174-178 | true exactly for a directed graph |
| StronglyConnected.StronglyConnectedComponents.DepthFirstSearch | src/mxh170027/StronglyConnectedComponents.java:81-94 | pushes every vertex once, in a finish order; returns an instance exactly when the shared stack was empty before, so the size test cannot detect a cycle |
| StronglyConnected.StronglyConnectedComponents.DepthFirstSearchOf | src/mxh170027/StronglyConnectedComponents.java:71-74 | the same through a fresh instance |
| StronglyConnected.StronglyConnectedComponents.TopologicalOrder1 | src/mxh170027/StronglyConnectedComponents.java:141-153 | null for an undirected graph, stack untouched; from an empty stack on a directed graph, the reverse of a finish order of all vertices, cycle or not, with the stack emptied; from a non-empty stack, null with the pushes left on it |
| StronglyConnected.StronglyConnectedComponents.TopologicalOrder1Of | src/mxh170027/StronglyConnectedComponents.java:193-202 | the same through a fresh instance |
| StronglyConnected.StronglyConnectedComponents.TopologicalOrderChecked | src/mxh170027/StronglyConnectedComponents.java:193-202 | a returned list is a topological order of every vertex; from an empty stack a directed graph gets one exactly when it is acyclic; undirected gets null |
| StronglyConnected.StronglyConnectedComponents.StronglyConnectedComponentsOf | src/mxh170027/StronglyConnectedComponents.java:210-218 | edges on return equal edges on entry; two vertices share a number exactly when each reaches the other; every number is in 1..`componentNumber`; `componentNumber` is the number of components; the stack is left holding each vertex once (the second pass's pushes) |
| StronglyConnected.StronglyConnectedComponents.StronglyConnectedComponentsTwice | src/mxh170027/StronglyConnectedComponents.java:210-218 | a second call on the unchanged graph is well defined on the stack the first leaves, and groups the vertices exactly as the first: two vertices share a number in one result exactly when they do in the other |
| StronglyConnected.KosarajuNumbers | src/mxh170027/StronglyConnectedComponents.java:212-215 | after a second pass on the transposed graph, started in reverse push order of the first, numbers are equal exactly for mutually reachable vertices and there are as many trees as components |
| StronglyConnected.ListOfFinish | src/mxh170027/StronglyConnectedComponents.java:212-213 | the popped list begins with the first pass's pushes read backwards, holds only vertices and names every vertex |
| StronglyConnected.NumberedInit | src/mxh170027/StronglyConnectedComponents.java:103-108 | after the reset no tree exists and nothing is numbered |
| StronglyConnected.NumberedStep | src/mxh170027/StronglyConnectedComponents.java:111-113 | a visit from an unseen root under the next number is the next tree of the forest, and the numbering invariant holds for it |
| StronglyConnected.NumberedSkip | src/mxh170027/StronglyConnectedComponents.java:111 | a seen root starts no tree and changes no number |
| StronglyConnected.TraversalDone | src/mxh170027/StronglyConnectedComponents.java:110-115 | when the root loop ends over an order naming every vertex, every vertex is seen and the whole traversal's guarantees hold |
| DfsTheory.EnterStep | src/mxh170027/StronglyConnectedComponents.java:124 | marking an unseen vertex, reached along an edge from the visit in progress, keeps the traversal bookkeeping |
| DfsTheory.PushStep | src/mxh170027/StronglyConnectedComponents.java:135 | pushing a vertex whose out-neighbours are all seen keeps the bookkeeping, including the finish order |
| DfsTheory.ReachFinished | src/mxh170027/StronglyConnectedComponents.java:123-136 | from a pushed vertex, every walk ends at a pushed vertex unless some vertex still in progress is mutually reachable with the start |
| DfsTheory.CloseVisit | src/mxh170027/StronglyConnectedComponents.java:128-135 | once u's out-neighbours are seen, everything reachable from u through unseen vertices was pushed by u's visit |
| DfsTheory.ForestTrees | src/mxh170027/StronglyConnectedComponents.java:110-115 | each tree holds its root, a vertex of the order not seen before, and nothing seen before |
| DfsTheory.ForestDisjoint | src/mxh170027/StronglyConnectedComponents.java:110-115 | the trees are pairwise disjoint |
| DfsTheory.ForestCovers | src/mxh170027/StronglyConnectedComponents.java:110-115 | every vertex of the order was seen before or lies in a tree |
| VisitTheory.EnterV | src/mxh170027/StronglyConnectedComponents.java:124 | marking u seen starts its visit with nothing pushed and one unseen vertex fewer |
| VisitTheory.DescendV | src/mxh170027/StronglyConnectedComponents.java:130-131 | giving an unseen out-neighbour u as parent meets everything that neighbour's visit assumes |
| VisitTheory.ReturnV | src/mxh170027/StronglyConnectedComponents.java:132 | the neighbour's finished visit extends u's visit, which keeps its invariant |
| VisitTheory.FinishV | src/mxh170027/StronglyConnectedComponents.java:135 | pushing u after all its out-neighbours are seen finishes its visit with exactly its white set pushed |
| VisitTheory.RootsInit | src/mxh170027/StronglyConnectedComponents.java:103-110 | with every vertex unseen and parentless, the root loop starts in its invariant |
| VisitTheory.RootEntry | src/mxh170027/StronglyConnectedComponents.java:111-113 | an unseen root meets what its visit assumes |
| VisitTheory.RootVisited | src/mxh170027/StronglyConnectedComponents.java:113 | a finished root visit keeps the root-loop invariant |
| VisitTheory.RootSkip | src/mxh170027/StronglyConnectedComponents.java:111 | a seen root keeps the root-loop invariant |
| VisitTheory.RootsDone | src/mxh170027/StronglyConnectedComponents.java:110-115 | after the loop over every vertex, every vertex is seen and the pushes list each vertex once in a finish order |
| SccTheory.RootTreeIsScc | src/mxh170027/StronglyConnectedComponents.java:215 | in the second pass, the tree grown over the transposed graph from the latest-pushed unassigned vertex is exactly that vertex's component |
| SccTheory.KosarajuFrom | src/mxh170027/StronglyConnectedComponents.java:215 | from any point of the second pass's order, every tree still to come is a component |
| SccTheory.Kosaraju | src/mxh170027/StronglyConnectedComponents.java:212-215 | every tree of the second pass is the component of its root |
| SccTheory.SameNumberIffMutual | src/mxh170027/StronglyConnectedComponents.java:215 | when the trees are disjoint components and each vertex's number names its tree, numbers are equal exactly for mutually reachable vertices |
| SccTheory.TreeSetsAreComponents | src/mxh170027/StronglyConnectedComponents.java:263 | component trees covering every vertex are exactly the set of components |
| SccTheory.ComponentCount | src/mxh170027/StronglyConnectedComponents.java:263 | disjoint component trees covering every vertex are as many as the components |
| TopoTheory.FinishOrderAcyclic | src/mxh170027/TopologicalOrdering.java:115-127 | in an acyclic graph each out-neighbour of a pushed vertex was pushed before it |
| TopoTheory.ReverseIsTopological | src/mxh170027/TopologicalOrdering.java:143-146 | in an acyclic graph the push sequence popped into a list puts every edge forwards |
| TopoTheory.TopologicalImpliesAcyclic | src/mxh170027/TopologicalOrdering.java:162-163 | a topological order of every vertex exists only for an acyclic graph |
| TopoTheory.CyclicHasNoOrder | src/mxh170027/TopologicalOrdering.java:162-163 | with a cycle, no listing of the vertices is a topological order |
| TopoTheory.AcyclicHasSource | src/mxh170027/TopologicalOrdering.java:84-94 | a non-empty acyclic graph has a vertex of in-degree 0, so the gate lets it through |
| TopoTheory.CyclicWithSource | src/mxh170027/TopologicalOrdering.java:84-100 | the graph 1→2, 2→3, 3→2 passes the in-degree gate yet has a cycle and no topological order |
| TopoTheory.EveryVertexEntered | src/mxh170027/TopologicalOrdering.java:177 | in the cyclic demonstration graph every vertex has an in-edge, so the gate rejects it |
| Topological.TopoStatics.constructor | src/mxh170027/TopologicalOrdering.java:27 | the class-wide stack starts empty |
| Topological.TopologicalOrdering.constructor | src/mxh170027/TopologicalOrdering.java:32-57 | every vertex record starts with no parent, not seen |
| Topological.TopologicalOrdering.DepthFirstSearch | src/mxh170027/TopologicalOrdering.java:75-108 | with a vertex of in-degree 0, pushes every vertex once in a finish order, otherwise nothing; returns an instance exactly when the stack then holds one entry per vertex |
| Topological.TopologicalOrdering.DepthFirstSearchOf | src/mxh170027/TopologicalOrdering.java:65-68 | the same through a fresh instance |
| Topological.TopologicalOrdering.VisitAll | src/mxh170027/TopologicalOrdering.java:95-99 | from all unseen, visiting each unseen vertex in order pushes every vertex once in a finish order and leaves every vertex seen |
| Topological.TopologicalOrdering.VisitRoot | src/mxh170027/TopologicalOrdering.java:96-98 | an unseen vertex gets a visit and a seen one is skipped, leaving the stack, seen flags and parents unchanged; the root-loop invariant is kept |
| Topological.TopologicalOrdering.DfsVisit | src/mxh170027/TopologicalOrdering.java:115-127 | the visit pushes exactly the vertices reachable from u through unseen vertices, u last; it marks them seen; each except u gets a parent inside the visit; the pushes stay a finish order |
| Topological.TopologicalOrdering.Enter | src/mxh170027/TopologicalOrdering.java:116 | u becomes seen and nothing else changes |
| Topological.TopologicalOrdering.VisitNeighbours | src/mxh170027/TopologicalOrdering.java:119-125 | after the loop every out-neighbour of u is seen and everything pushed meanwhile is reachable from u through unseen vertices |
| Topological.TopologicalOrdering.VisitNeighbour | src/mxh170027/TopologicalOrdering.java:120-124 | an unseen neighbour gets u as its parent and a visit; either way it ends seen |
| Topological.TopologicalOrdering.Finish | src/mxh170027/TopologicalOrdering.java:126 | pushing u, all of whose out-neighbours are seen, completes its visit with exactly its white set pushed |
| Topological.TopologicalOrdering.TopologicalOrder1 | src/mxh170027/TopologicalOrdering.java:132-148 | null for an undirected graph with no traversal; from an empty stack, a list exactly when the graph is empty or has a vertex of in-degree 0; the list is the whole stack popped, and the stack ends empty; on an acyclic directed graph the list is a topological order of every vertex |
| Topological.TopologicalOrdering.TopologicalOrder1Of | src/mxh170027/TopologicalOrdering.java:162-171 | the same through a fresh instance |
| Topological.TopologicalOrdering.TopologicalOrderChecked | src/mxh170027/TopologicalOrdering.java:162-171 | a returned list puts every edge forwards; from an empty stack a directed graph gets one, a permutation of the vertices, exactly when it is acyclic; undirected gets null |
| TreeDiameter.FindFarthestNode | src/mxh170027/DiameterOfTree.java:54-68 | returns the first vertex at the largest distance when some distance is positive, and the source otherwise |
| TreeDiameter.FarthestUnique | src/mxh170027/DiameterOfTree.java:60-65 | the strict comparison leaves exactly one possible answer |
| TreeDiameter.DoubleSweep | src/mxh170027/DiameterOfTree.java:23-44 | under the four-point condition, the distance from a farthest vertex to its own farthest vertex bounds every pair and is attained |
| TreeDiameter.Diameter | src/mxh170027/DiameterOfTree.java:29-45 | 0 for no vertices; otherwise dist(a, b) for a farthest from vertex 1 and b farthest from a; for tree distances that is the diameter |
| TreeDiameter.DemoBound | src/mxh170027/DiameterOfTree.java:72 | no two vertices of the demonstration tree are more than 6 apart |
| TreeDiameter.DemoFirstSweep | src/mxh170027/DiameterOfTree.java:36-39 | on the demonstration tree the sweep from vertex 1 ends at vertex 8 |
| TreeDiameter.DemoSecondSweep | src/mxh170027/DiameterOfTree.java:42-44 | the sweep from vertex 8 ends at vertex 9 |
| TreeDiameter.DemoSweeps | src/mxh170027/DiameterOfTree.java:72 | on the demonstration tree the result is 6, which is its diameter |

## Left out

- Input and output are not modelled:
  - the `main` methods and reading a graph from text;
  - `printGraph`;
  - `printVertices` (StronglyConnectedComponents.java:223-241);
  - both `printTopologicalOrder1` methods.
- `rbk.Graph` is not part of this model. It is replaced by a stand-in class with the following members:
  - the vertex count;
  - directedness, given as a parameter because how `readGraph` sets it is not visible;
  - out-lists in `outEdges` order;
  - in-lists, whose lengths are the in-degrees.
  Edge weights are dropped because nothing here reads them.
- `rbk.BFSOO` is not part of this model. The search's answers are the function `dist(s, v)`. Its convention for unreachable vertices is not modelled.
- TreeDiameter.Diameter: the diameter guarantee is proved for distances that satisfy the four-point condition. That tree distances satisfy it is taken as the hypothesis `TreeMetric`, not derived from a tree definition.
- The `GraphAlgorithm`/`Factory` per-vertex storage is replaced by arrays indexed by vertex. The `make` factory method is not modelled.
- Topological.TopologicalOrdering.DepthFirstSearch and StronglyConnected.StronglyConnectedComponents.DepthFirstSearch return a fresh instance over the same graph and shared state. Its per-vertex records are not described because nothing reads them.
- The test `get(u) != null` (TopologicalOrdering.java:96) always holds and is not modelled.
- The following are not modelled:
  - recursion depth and stack overflow;
  - overflow of `componentNumber` and `vertexCount`, which never exceed the vertex count.
- StronglyConnected.StronglyConnectedComponents.StronglyConnectedComponentsOf requires any entries that earlier calls left on the shared stack to be vertices of the graph. What the Java code does with a vertex of another graph is not modelled.
- Each `dfsVisit` is modelled as several methods: `Enter`, `VisitNeighbours`, `VisitNeighbour` and `Finish`. They keep the same recursion, order of steps and state changes.
- The integer read at DiameterOfTree.java:79 is never used, and it is not modelled. The first sweep starts at vertex 1, which is index 0 here.

## Findings

| source | as written | input that shows it | evidently intended | confidence | as-written member | corrected member |
|---|---|---|---|---|---|---|
| src/mxh170027/TopologicalOrdering.java:162-171 | the only cycle test is the in-degree gate at lines 84-100. Once some vertex has in-degree 0, every vertex is pushed and the popped stack is returned. | directed graph 1→2, 2→3, 3→2, starting with an empty stack: vertex 1 passes the gate, and a list is returned although 2 and 3 form a cycle | null for a graph that is not a DAG, as the documentation says | not executed | Topological.TopologicalOrdering.TopologicalOrder1, TopoTheory.CyclicWithSource | Topological.TopologicalOrdering.TopologicalOrderChecked |
| src/mxh170027/StronglyConnectedComponents.java:193-202 | there is no cycle test at all. With an empty stack, the size test at line 89 always passes, so every directed graph gets the reversed push order. | directed graph 1→2, 2→3, 3→2, starting with an empty stack: a list is returned | null for a graph that is not a DAG, as the documentation says | not executed | StronglyConnected.StronglyConnectedComponents.TopologicalOrder1Of, TopoTheory.CyclicWithSource | StronglyConnected.StronglyConnectedComponents.TopologicalOrderChecked |
