/**
  The shortest-path engine: Dijkstra's algorithm run on the scratch state of
  the nodes of a `Network`.

  `SpathInitialise` resets every node and returns the set of unvisited names,
  `SpathIteration` performs one greedy step (its minimum search and its
  relaxation loop are `MinByDistance` and `RelaxArcsFrom`), `SpathExtractPath`
  walks the predecessor links back from a destination, and `SpathAlgorithm`
  drives the whole query: its loop is `SpathVisitAll` and its final reading of
  the answer is `SpathAnswer`.  Each operation states its effect on the nodes'
  scratch state through a ghost table `M` with `net.LabelsAre(M)`, and the
  lemmas of module `Dijkstra` turn those effects into the correctness of the
  final result.
*/
module Spath {
  import opened Distances
  import opened Dijkstra
  import opened Graph

  /** `get_distance`: the current distance of the node called `name`. */
  function GetDistance(net: Network, name: string): (d: Dist)
    reads net, net.nodes
    requires net.UniqueNames() && name in net.NameSet()
    ensures forall n :: n in net.nodes && n.name == name ==> d == n.dist
  {
    var n := net.GetNode(name);
    assert n != null by {
      var m :| m in net.nodes && m.name == name;
    }
    n.dist
  }

  /**
    `min(unvisited, key=get_distance)`: an element of `names` whose distance
    is least.  The scan keeps the first element found among equals; which one
    that is depends on the iteration order of the set, so the result is any
    minimum.
  */
  method MinByDistance(net: Network, names: set<string>, ghost M: Labels) returns (best: string)
    requires net.UniqueNames() && net.LabelsAre(M)
    requires names != {} && names <= net.NameSet()
    ensures IsMinIn(M, names, best)
  {
    var rest := names;
    best :| best in rest;
    rest := rest - {best};
    while rest != {}
      invariant rest <= names && best in names
      invariant forall v :: v in names && v !in rest ==> LessEq(M[best].dist, M[v].dist)
      decreases |rest|
    {
      var x :| x in rest;
      assert GetDistance(net, x) == M[x].dist && GetDistance(net, best) == M[best].dist by {
        assert net.NamedNode(x) in net.nodes && net.NamedNode(best) in net.nodes;
      }
      if Less(GetDistance(net, x), GetDistance(net, best)) {
        best := x;
      }
      rest := rest - {x};
    }
  }

  /**
    `spath_initialise`: every node gets distance infinity and no predecessor,
    then the source gets distance 0 and no predecessor; the names of all nodes
    are returned as the unvisited set.
  */
  method SpathInitialise(net: Network, source: string) returns (unvisited: set<string>)
    requires net.UniqueNames() && net.GetNode(source) != null
    modifies net.nodes`dist, net.nodes`pred
    ensures unvisited == net.NameSet()
    ensures net.LabelsAre(InitLabels(net.NameSet(), source))
  {
    unvisited := {};
    for i := 0 to |net.nodes|
      invariant unvisited == NamesOf(net.nodes[..i])
      invariant forall j :: 0 <= j < i ==> net.nodes[j].dist == Inf && net.nodes[j].pred == null
    {
      var node := net.nodes[i];
      node.dist, node.pred := Inf, null;
      unvisited := unvisited + {node.name};
      assert net.nodes[..i + 1] == net.nodes[..i] + [node];
    }
    assert net.nodes[..|net.nodes|] == net.nodes;
    var s := net.GetNode(source);
    s.dist, s.pred := Fin(0), null;
    forall n | n in net.nodes && n != s
      ensures n.name != source
    {
      net.DistinctNames(n, s);
    }
  }

  /**
    `spath_iteration`: removes from `unvisited` a name of least distance and
    returns it, after relaxing, in order, every arc of the network whose tail
    has that name.  `M` is the scratch state before the step.
  */
  method SpathIteration(net: Network, unvisited: set<string>, ghost M: Labels)
    returns (solved: string, remaining: set<string>)
    requires net.UniqueNames() && net.ArcsClosed() && net.LabelsAre(M)
    requires unvisited != {} && unvisited <= net.NameSet()
    modifies net.nodes`dist, net.nodes`pred
    ensures solved in unvisited && remaining == unvisited - {solved} && |remaining| == |unvisited| - 1
    ensures IsMinIn(M, unvisited, solved)
    ensures net.LabelsAre(RelaxAll(M, net.Edges(), solved))
  {
    solved := MinByDistance(net, unvisited, M);
    remaining := unvisited - {solved};
    RemoveOne(unvisited, solved);
    var current := net.GetNode(solved);
    assert current != null by {
      var m :| m in net.nodes && m.name == solved;
    }
    RelaxArcsFrom(net, current, M);
  }

  /**
    The relaxation loop of `spath_iteration`: every arc of the network whose
    tail has the name of `current` is relaxed, in the order of the arcs.
  */
  method RelaxArcsFrom(net: Network, current: Node, ghost M: Labels)
    requires net.UniqueNames() && net.ArcsClosed() && net.LabelsAre(M) && current in net.nodes
    modifies net.nodes`dist, net.nodes`pred
    ensures net.LabelsAre(RelaxAll(M, net.Edges(), current.name))
  {
    ghost var E := net.Edges();
    net.EdgesStayWithin();
    ghost var Mk := M;
    for k := 0 to |net.arcs|
      invariant Mk == RelaxAll(M, E[..k], current.name) && net.LabelsAre(Mk)
    {
      var arc := net.arcs[k];
      assert arc in net.arcs && E[k] == EdgeOf(arc);
      RelaxAllPrefix(M, E, k, current.name);
      if arc.fromNode.name == current.name {
        RelaxNeighbour(net, current, arc, Mk);
      }
      Mk := RelaxArc(Mk, E[k], current.name);
    }
    assert E[..|net.arcs|] == E;
  }

  /**
    The body of the relaxation loop for one arc leaving `current`: the head of
    the arc takes the distance through the arc, with `current` as predecessor,
    when that is strictly shorter than its own.  `M` is the scratch state
    before the step.
  */
  method RelaxNeighbour(net: Network, current: Node, arc: Arc, ghost M: Labels)
    requires net.UniqueNames() && net.LabelsAre(M)
    requires current in net.nodes && arc.fromNode.name == current.name && arc.toNode in net.nodes
    modifies arc.toNode`dist, arc.toNode`pred
    ensures net.LabelsAre(RelaxArc(M, EdgeOf(arc), current.name))
  {
    var newDistance := Add(arc.weight, current.dist);
    var neighbour := arc.toNode;
    if Less(newDistance, neighbour.dist) {
      neighbour.dist := newDistance;
      neighbour.pred := current;
      forall n | n in net.nodes && n != neighbour
        ensures n.name != neighbour.name
      {
        net.DistinctNames(n, neighbour);
      }
    }
  }

  /**
    `spath_extract_path`: the names on the predecessor chain that ends at
    `name`, from the chain's start to `name`.  It is the path `PathTo` reads
    off the scratch state `M`; `rank` is the ghost measure that makes the
    chain finite.
  */
  function SpathExtractPath(net: Network, name: string, ghost M: Labels, ghost rank: map<string, nat>): (path: seq<string>)
    reads net, net.nodes
    requires net.UniqueNames() && net.LabelsAre(M) && name in M && Ranked(M, rank)
    ensures path == PathTo(M, name, rank)
    decreases rank[name]
  {
    var node := net.GetNode(name);
    assert node != null && LabelOf(node) == M[name] by {
      var m :| m in net.nodes && m.name == name;
    }
    if node.pred == null then [name]
    else SpathExtractPath(net, node.pred.name, M, rank) + [name]
  }

  /** Taking one element out of a finite set leaves one fewer. */
  lemma RemoveOne(U: set<string>, x: string)
    requires x in U
    ensures |U - {x}| == |U| - 1
  {
  }

  /** The state left by `spath_initialise` satisfies the invariant, with every name unvisited. */
  lemma StartInv(net: Network, source: string)
    requires net.UniqueNames() && net.ArcsClosed() && NonNegative(net.Edges()) && net.GetNode(source) != null
    ensures Inv(net.Edges(), source, InitLabels(net.NameSet(), source), net.NameSet(), InitRank(InitLabels(net.NameSet(), source)), 0)
    ensures |net.NameSet()| == |net.nodes|
  {
    net.EdgesStayWithin();
    net.NameCount();
    InitInv(net.Edges(), source, net.NameSet());
  }

  /**
    The loop of `spath_algorithm`: one greedy step per call of
    `spath_iteration` until nothing is unvisited.  Starting from the state left
    by `spath_initialise`, it takes exactly one step per node and ends in a
    state where the invariant holds with nothing unvisited.
  */
  method SpathVisitAll(net: Network, source: string, unvisited0: set<string>, ghost M0: Labels, ghost rank0: map<string, nat>)
    returns (ghost M: Labels, ghost rank: map<string, nat>, ghost steps: nat)
    requires net.UniqueNames() && net.ArcsClosed() && net.LabelsAre(M0)
    requires Inv(net.Edges(), source, M0, unvisited0, rank0, 0) && |unvisited0| == |net.nodes|
    modifies net.nodes`dist, net.nodes`pred
    ensures net.LabelsAre(M) && Inv(net.Edges(), source, M, {}, rank, steps)
    ensures steps == |net.nodes|
  {
    ghost var E := net.Edges();
    var unvisited := unvisited0;
    M, rank, steps := M0, rank0, 0;
    while unvisited != {}
      invariant net.LabelsAre(M) && net.Edges() == E
      invariant Inv(E, source, M, unvisited, rank, steps)
      invariant |unvisited| + steps == |net.nodes|
      decreases |unvisited|
    {
      ghost var U := unvisited;
      var solved;
      solved, unvisited := SpathIteration(net, unvisited, M);
      StepInv(E, source, M, U, rank, steps, solved);
      M := RelaxAll(M, E, solved);
      rank := NextRank(rank, U - {solved}, steps);
      steps := steps + 1;
    }
  }

  /**
    The end of `spath_algorithm`, once nothing is unvisited: extracts the path
    to `destination`, reads the distance of the node the path ends at, and
    answers `(None, None)` when that distance is infinite.
  */
  method SpathAnswer(net: Network, source: string, destination: string,
                     ghost M: Labels, ghost rank: map<string, nat>, ghost steps: nat)
    returns (distance: Option<int>, path: Option<seq<string>>)
    requires net.UniqueNames() && net.LabelsAre(M) && Inv(net.Edges(), source, M, {}, rank, steps)
    requires destination in M
    ensures IsShortestAnswer(net.Edges(), source, destination, distance, path)
    ensures source == destination ==> distance == Some(0) && path == Some([source])
  {
    var pathUnchecked := SpathExtractPath(net, destination, M, rank);
    assert pathUnchecked[|pathUnchecked| - 1] == destination;
    var node := net.GetNode(pathUnchecked[|pathUnchecked| - 1]);
    var distanceUnchecked := node.dist;
    ShortestPathsFound(net.Edges(), source, M, rank, steps, destination);
    if distanceUnchecked == Inf {
      distance, path := None, None;
    } else {
      distance, path := Some(distanceUnchecked.n), Some(pathUnchecked);
    }
  }

  /**
    `spath_algorithm`: initialises, visits every node, then extracts the path
    to `destination` and its distance.  With non-negative weights the answer
    is a shortest one: `(None, None)` exactly when `destination` cannot be
    reached, and otherwise the weight and route of a lightest walk.  The
    nodes are left in the state `M`, where the invariant holds with nothing
    unvisited, so by `ShortestPathsFound` every node holds its shortest
    distance from `source`.
  */
  method SpathAlgorithm(net: Network, source: string, destination: string)
    returns (distance: Option<int>, path: Option<seq<string>>,
             ghost M: Labels, ghost rank: map<string, nat>, ghost steps: nat)
    requires net.UniqueNames() && net.ArcsClosed() && NonNegative(net.Edges())
    requires net.GetNode(source) != null && net.GetNode(destination) != null
    modifies net.nodes`dist, net.nodes`pred
    ensures steps == |net.nodes|
    ensures net.LabelsAre(M) && Inv(net.Edges(), source, M, {}, rank, steps)
    ensures IsShortestAnswer(net.Edges(), source, destination, distance, path)
    ensures source == destination ==> distance == Some(0) && path == Some([source])
  {
    var unvisited := SpathInitialise(net, source);
    StartInv(net, source);
    M := InitLabels(unvisited, source);
    M, rank, steps := SpathVisitAll(net, source, unvisited, M, InitRank(M));
    distance, path := SpathAnswer(net, source, destination, M, rank, steps);
  }
}
