# Network shortest paths (lab 6 module)

This project models the shortest-path part of `module_lab6.py` in Dafny and
proves its properties. That part has two halves:

- The graph model: a `Network` owns an ordered list of `Node`s and an ordered
  list of weighted, directed `Arc`s. Each node keeps its entering and leaving
  arcs, plus a scratch pair `value = [distance, predecessor]`.
- Dijkstra's shortest-path algorithm, run on that scratch state.
  `spath_initialise` resets every node. `spath_iteration` finalises one
  unvisited node of least distance and relaxes the arcs leaving it.
  `spath_extract_path` follows the predecessor links back from a destination.
  `spath_algorithm` runs the whole query and answers `(distance, path)`, or
  `(None, None)` when the destination is unreachable.

The project has four modules:

- `Distances` (`distances.dfy`): the values that the other modules share.
  - `Dist` is a tentative distance.
  - `Edge` is an arc seen by the names of its endpoints.
  - `Label` is a node's scratch pair, and `Labels` is a table of them keyed by name.
- `Graph` (`graph.dfy`): the classes `Node`, `Arc` and `Network`. Their fields
  are updated in place, as in the source.
  - A node's `value` pair is the two fields `dist` and `pred`.
  - `get_node` is a linear search for the first node with the name.
  - `add_node` and `add_arc` are methods that append to the lists.
- `Dijkstra` (`dijkstra.dfy`): the value-level theory.
  - A table `Labels` maps node names to (distance, predecessor name).
  - `RelaxArc` and `RelaxAll` describe one pass of the relaxation loop.
  - `PathTo` is the predecessor walk.
  - Walks and their weights are defined along the arcs.
  - `Inv` is the invariant of the greedy loop. The lemmas show that it holds
    after initialisation, that every step keeps it, and what it implies once
    nothing is unvisited.
- `Spath` (`spath.dfy`): the engine as methods on a `Network`.
  - Each method states its effect on the nodes through a ghost table `M` with
    `net.LabelsAre(M)`: the nodes' scratch state, keyed by name, is `M`.
  - `SpathAlgorithm` is proved to return a shortest answer (`IsShortestAnswer`):
    - `(None, None)` exactly when no walk reaches the destination;
    - otherwise the weight and the route of a walk from the source to the
      destination, and no walk between them is lighter.
  - It leaves the nodes in a state `M` where the invariant holds with nothing
    unvisited, so every node holds its shortest distance (`ShortestPathsFound`).
  - It takes exactly one iteration per node.
  - When the source is the destination it returns `(0, [source])`.

Distances are `Dist = Fin(n) | Inf`: `Inf` stands for `np.inf`, and weights
are integers (see below).

## Model

| member | source | states |
|---|---|---|
| Graph.Node.constructor | module_lab6.py:235-242 | a new node has the given name, no entering or leaving arcs, and the scratch pair (infinity, none) |
| Graph.Arc.constructor | module_lab6.py:262-265 | a new arc holds the given weight, tail node and head node |
| Graph.Network.constructor | module_lab6.py:283-287 | a new network has no nodes and no arcs |
| Graph.FindIndex | module_lab6.py:309-314 | the linear search stops at a position within the list, and a stop before the end is at a node with the wanted name |
| Graph.FindIndexFirst | module_lab6.py:309-311 | no node before the position where the search stops has the wanted name |
| Graph.FindIndexAppend | module_lab6.py:309-314 | after a node is appended, the search finds the earlier match if there is one, else the new node if it has the name, else nothing |
| Graph.Network.GetNode | module_lab6.py:294-314 | returns None exactly when no node has the name; otherwise it returns a node of the network with that name, and no earlier node has that name |
| Graph.Network.NamedNode | module_lab6.py:309-314 | `get_node` restricted to taken names: the lookup returns a node of the network with that name, never None |
| Graph.Network.UniqueNamesPairwise | module_lab6.py:309-314 | if every node is the first match for its own name, then no two nodes share a name |
| Graph.Network.DistinctNames | module_lab6.py:309-314 | with unique names, two different nodes of the network have different names |
| Graph.Network.NameCount | module_lab6.py:100-102 | with unique names, the set of node names is as large as the list of nodes |
| Graph.NamesOfDistinct | module_lab6.py:100-102 | a list of nodes with pairwise different names has as many names as nodes |
| Graph.Network.EdgesStayWithin | module_lab6.py:139-147 | when every arc joins nodes of the network, every edge joins two names of the network |
| Graph.Leaving | module_lab6.py:349 | the arcs leaving a node are exactly the arcs of the list whose tail is that node |
| Graph.Entering | module_lab6.py:350 | the arcs entering a node are exactly the arcs of the list whose head is that node |
| Graph.LeavingNone | module_lab6.py:328-329 | a node that no arc leaves has no leaving arcs |
| Graph.EnteringNone | module_lab6.py:328-329 | a node that no arc reaches has no entering arcs |
| Graph.LeavingAppend | module_lab6.py:345-349 | appending an arc adds it to the leaving arcs of its tail, and of no other node |
| Graph.EnteringAppend | module_lab6.py:345-350 | appending an arc adds it to the entering arcs of its head, and of no other node |
| Graph.Network.AddNode | module_lab6.py:316-329 | appends exactly one fresh node with the name and no arcs, and leaves the earlier nodes and all arcs unchanged; the network stays valid when the name is new, and a duplicate name breaks unique lookup |
| Graph.Network.AddArc | module_lab6.py:331-350 | appends one fresh arc with the given weight and endpoints to the network's arcs, to the tail's leaving arcs and to the head's entering arcs; it changes nothing else, and a valid network stays valid |
| Dijkstra.RelaxArc | module_lab6.py:142-147 | an arc whose tail is not the chosen node changes nothing; otherwise only the head may change, and only to the distance through the chosen node with that node as predecessor; afterwards the head is no farther than that distance, no distance rises, and a label changes only on a strict improvement |
| Dijkstra.RelaxAll | module_lab6.py:139-147 | relaxing a sequence of arcs keeps the same set of names |
| Dijkstra.RelaxAllPrefix | module_lab6.py:142-147 | relaxing one more arc extends the relaxation of the earlier arcs by that arc |
| Dijkstra.RelaxAllNeverIncreases | module_lab6.py:142-147 | for any weights, relaxation never raises a distance, and a label that changes has strictly improved and names the chosen node as predecessor |
| Dijkstra.RelaxAllFromChosen | module_lab6.py:139-147 | with non-negative weights, the chosen node keeps its label; every head of an arc from the chosen node is at most the distance through that arc; a label that changes takes the distance through some such arc, strictly below its old value |
| Dijkstra.Route | module_lab6.py:177-179 | the route of a walk starts at its origin, ends at the head of its last arc, and has one more name than the walk has arcs |
| Dijkstra.PathTo | module_lab6.py:167-181 | the extracted path ends at the destination, starts at a name without a predecessor, and each name on it is the recorded predecessor of the next |
| Dijkstra.InitInv | module_lab6.py:97-104 | the labels right after initialisation satisfy the loop invariant, with every name unvisited |
| Dijkstra.FrontierBound | module_lab6.py:130 | every walk from the source to an unvisited name is at least as heavy as the distance of some unvisited name |
| Dijkstra.StepEffectHolds | module_lab6.py:139-147 | relaxing from a least unvisited name changes only unvisited names other than itself, each to a finite distance through an arc leaving it, and relaxes every arc that leaves it |
| Dijkstra.ChosenIsFinal | module_lab6.py:130-133 | the distance of the least unvisited name is final: no walk from the source to it is lighter |
| Dijkstra.StepKeepsShape | module_lab6.py:130-147 | one greedy step keeps the ranks, the source's label and the non-negative distances consistent |
| Dijkstra.StepKeepsLinks | module_lab6.py:143-147 | after one greedy step, every predecessor link is still backed by an arc from a finalised node |
| Dijkstra.StepKeepsGreedy | module_lab6.py:130-147 | after one greedy step, finalised names are no farther than unvisited ones, arcs from finalised names are relaxed, and finalised distances are at most every walk's weight |
| Dijkstra.StepInv | module_lab6.py:112-149 | one iteration keeps the loop invariant when it finalises a least unvisited name and relaxes its arcs |
| Dijkstra.PathToWalk | module_lab6.py:151-181 | while the invariant holds, the path extracted to a finite name is the route of a walk from the source whose weight is that name's distance |
| Dijkstra.ShortestPathsFound | module_lab6.py:200-208 | once nothing is unvisited, each distance is infinite exactly when no walk from the source reaches the name; otherwise it is at most every walk's weight, and the extracted path starts at the source and realises it |
| Dijkstra.ShortestDistanceUnique | module_lab6.py:130 | two shortest answers for the same query have the same distance, whichever minimum each step picked |
| Spath.GetDistance | module_lab6.py:126-128 | the distance of the unique node that has the name |
| Spath.MinByDistance | module_lab6.py:130 | returns an element of the set whose distance is least |
| Spath.SpathInitialise | module_lab6.py:81-109 | returns the names of all nodes; afterwards the source has (0, none) and every other node has (infinity, none) |
| Spath.SpathIteration | module_lab6.py:112-149 | removes exactly one name, of least distance, from the unvisited set and returns it; the nodes' new state is the old one after relaxing, in order, every arc whose tail has that name |
| Spath.RelaxArcsFrom | module_lab6.py:135-147 | relaxes, in the order of the network's arcs, every arc whose tail has the current node's name |
| Spath.RelaxNeighbour | module_lab6.py:143-147 | the head of the arc takes the distance through the current node, with that node as predecessor, only when that is strictly shorter |
| Spath.SpathExtractPath | module_lab6.py:151-181 | returns the predecessor chain that ends at the name, from the chain's start to the name |
| Spath.StartInv | module_lab6.py:97-104 | the state after initialisation satisfies the loop invariant, and there are as many names as nodes |
| Spath.SpathVisitAll | module_lab6.py:202-203 | the loop runs exactly one iteration per node and ends with nothing unvisited and the invariant holding |
| Spath.SpathAnswer | module_lab6.py:207-216 | once nothing is unvisited, returns a shortest answer, and `(0, [source])` when the source is the destination |
| Spath.SpathAlgorithm | module_lab6.py:184-216 | takes exactly one iteration per node and returns a shortest answer: `(None, None)` exactly when the destination is unreachable, otherwise the weight and route of a walk that no walk is lighter than, and `(0, [source])` when the source is the destination; it leaves every node holding the label of the finished table, where the invariant holds with nothing unvisited |

## Left out

- `read_network` (lines 352-397) reads a file, so it is I/O and not modelled. Networks are built with `AddNode` and `AddArc` instead.
- `interpolate_linear` and `integrate_composite_trapezoid` work on floating-point arrays and are outside the shortest-path engine. The `__repr__` methods are only formatting. None of them is modelled.
- Weights and distances are unbounded integers, and `Inf` stands for `np.inf`.
  - Floating-point weights and rounding are not modelled.
  - `inf + w` is `Inf`, and `Inf` is above every finite distance, as in the source.
- `Graph.Node.constructor`: the source's `value` argument (and `add_node`'s optional `value`) is not modelled.
  - A new node starts with the pair (infinity, none), not `None`.
  - Only `spath_initialise` gives the pair meaning.
- The optional list arguments of the `Node` and `Network` constructors are not modelled. Passing them leaves the attributes unset in the source.
- Python's set iteration order is not modelled.
  - `MinByDistance` may return any minimum, so when distances tie the model allows every choice the source could make.
  - `Dijkstra.ShortestDistanceUnique` shows that the distance answered does not depend on that choice.
- `Spath.SpathIteration` removes names from `unvisited` by returning the new set instead of changing the caller's set in place. It has four preconditions that the source does not check:
  - the set is non-empty: on an empty set the source's `min` raises an error;
  - every name is a node of the network: on an unknown name `get_distance` fails on `None`;
  - node names are unique (`UniqueNames`): with duplicate names, `get_distance` and `get_node` (lines 126-128, 309-311) silently use the first node with the name;
  - every arc joins two nodes of the network (`ArcsClosed`): the source still relaxes an arc whose head is outside `network.nodes` (lines 144-147), and it fails on `None[0]` when that head was never initialised.
- `Spath.SpathExtractPath`: it requires a ghost `rank` that strictly decreases along the predecessor links (`Ranked`), so the links form no cycle. The source does not promise this.
  - With a negative weight the source can build a cycle, and its recursion at lines 170-177 then never ends. Example: arcs A→B (1), B→C (1), C→B (−5), source A. The third iteration gives B the pair (−3, C) while C's predecessor is B, so `spath_algorithm(net, 'A', 'B')` raises a `RecursionError` instead of answering.
  - Python's default recursion limit of 1000 also makes the source fail on a predecessor chain of about a thousand names. `PathTo` returns a path of any length.
- In `spath_iteration`, the relaxation loop (`Spath.RelaxArcsFrom`), the body of that loop (`Spath.RelaxNeighbour`) and the minimum search (`Spath.MinByDistance`) are separate methods.
- In `spath_algorithm`, the loop (`Spath.SpathVisitAll`) and the reading of the answer (`Spath.SpathAnswer`) are separate methods.
- The methods take the scratch state `M`, the ranks and the step count as ghost parameters. These exist only for the proof.
- `Spath.SpathInitialise`: its effect on each node is stated as `net.LabelsAre(InitLabels(...))`: the nodes' scratch state, keyed by name, is the initial table. It requires unique names and an existing source. With a missing source the program fails on `None.value`.
- `Spath.SpathAlgorithm`: it is proved only for networks that meet four conditions, all unchecked by the source:
  - the weights are non-negative: with a negative weight the greedy answer can be wrong, and the source can even crash in `spath_extract_path` (see `Spath.SpathExtractPath` above);
  - node names are distinct;
  - every arc joins two nodes of the network;
  - both the source and the destination exist.
- `Graph.Network.AddNode`: duplicate names are accepted, as in the source. The contract states that a duplicate makes lookup by name ambiguous, not that the network stays valid.
- `Graph.Network.AddArc`: the arc's endpoints need not belong to the network, as in the source. Validity is preserved only when they do.
