/**
  The graph model: nodes, arcs and the network that owns them.

  A `Node` has a name that never changes, the scratch pair
  `value = [distance, predecessor]` that the shortest-path engine overwrites
  (here the fields `dist` and `pred`), and the lists of arcs that end and
  begin at it.  An `Arc` is a weighted, directed link between two nodes.  A
  `Network` keeps the ordered lists of its nodes and arcs; names are looked up
  by a linear search, and both lists only ever grow.
*/
module Graph {
  import opened Distances

  class Node {
    const name: string
    var dist: Dist
    var pred: Node?
    var arcsIn: seq<Arc>
    var arcsOut: seq<Arc>

    /** A fresh node with no arcs; its scratch pair starts out as (infinity, none). */
    constructor (name: string)
      ensures this.name == name && dist == Inf && pred == null
      ensures arcsIn == [] && arcsOut == []
    {
      this.name := name;
      dist := Inf;
      pred := null;
      arcsIn := [];
      arcsOut := [];
    }
  }

  class Arc {
    const weight: int
    const fromNode: Node
    const toNode: Node

    constructor (weight: int, fromNode: Node, toNode: Node)
      ensures this.weight == weight && this.fromNode == fromNode && this.toNode == toNode
    {
      this.weight := weight;
      this.fromNode := fromNode;
      this.toNode := toNode;
    }
  }

  /** The name-level view of an arc. */
  function EdgeOf(a: Arc): Edge {
    Edge(a.fromNode.name, a.toNode.name, a.weight)
  }

  /** The scratch state of a node, with the predecessor given by its name. */
  function LabelOf(n: Node): Label
    reads n
  {
    Label(n.dist, if n.pred == null then None else Some(n.pred.name))
  }

  /** The position of the first node called `name`, or `|ns|` when there is none. */
  function FindIndex(ns: seq<Node>, name: string): (i: nat)
    ensures i <= |ns|
    ensures i < |ns| ==> ns[i].name == name
  {
    if ns == [] then 0
    else if ns[0].name == name then 0
    else 1 + FindIndex(ns[1..], name)
  }

  /** No node before position `FindIndex(ns, name)` is called `name`. */
  lemma {:induction false} FindIndexFirst(ns: seq<Node>, name: string)
    ensures forall j :: 0 <= j < FindIndex(ns, name) ==> ns[j].name != name
    decreases |ns|
  {
    if ns != [] && ns[0].name != name {
      FindIndexFirst(ns[1..], name);
      forall j | 0 < j < FindIndex(ns, name)
        ensures ns[j].name != name
      {
        assert ns[j] == ns[1..][j - 1];
      }
    }
  }

  /** Appending a node leaves earlier matches alone and otherwise finds the new node or nothing. */
  lemma {:induction false} FindIndexAppend(ns: seq<Node>, n: Node, name: string)
    ensures FindIndex(ns + [n], name) ==
              if FindIndex(ns, name) < |ns| then FindIndex(ns, name)
              else if n.name == name then |ns| else |ns| + 1
    decreases |ns|
  {
    if ns != [] && ns[0].name != name {
      assert (ns + [n])[1..] == ns[1..] + [n];
      FindIndexAppend(ns[1..], n, name);
    }
  }

  /** The arcs of `arcs` that begin at `n`, in insertion order. */
  ghost function Leaving(arcs: seq<Arc>, n: Node): (r: seq<Arc>)
    ensures forall a :: a in r ==> a in arcs && a.fromNode == n
    ensures forall a :: a in arcs && a.fromNode == n ==> a in r
    decreases |arcs|
  {
    if arcs == [] then []
    else
      var last := arcs[|arcs| - 1];
      Leaving(arcs[..|arcs| - 1], n) + (if last.fromNode == n then [last] else [])
  }

  /** The arcs of `arcs` that end at `n`, in insertion order. */
  ghost function Entering(arcs: seq<Arc>, n: Node): (r: seq<Arc>)
    ensures forall a :: a in r ==> a in arcs && a.toNode == n
    ensures forall a :: a in arcs && a.toNode == n ==> a in r
    decreases |arcs|
  {
    if arcs == [] then []
    else
      var last := arcs[|arcs| - 1];
      Entering(arcs[..|arcs| - 1], n) + (if last.toNode == n then [last] else [])
  }

  /** A node that no arc leaves has no leaving arcs. */
  lemma {:induction false} LeavingNone(arcs: seq<Arc>, n: Node)
    requires forall a :: a in arcs ==> a.fromNode != n
    ensures Leaving(arcs, n) == []
    decreases |arcs|
  {
    if arcs != [] {
      LeavingNone(arcs[..|arcs| - 1], n);
    }
  }

  /** A node that no arc reaches has no entering arcs. */
  lemma {:induction false} EnteringNone(arcs: seq<Arc>, n: Node)
    requires forall a :: a in arcs ==> a.toNode != n
    ensures Entering(arcs, n) == []
    decreases |arcs|
  {
    if arcs != [] {
      EnteringNone(arcs[..|arcs| - 1], n);
    }
  }

  /** Appending an arc adds it to the leaving arcs of its tail and of no other node. */
  lemma LeavingAppend(arcs: seq<Arc>, a: Arc, n: Node)
    ensures Leaving(arcs + [a], n) == Leaving(arcs, n) + (if a.fromNode == n then [a] else [])
  {
    assert (arcs + [a])[..|arcs|] == arcs;
  }

  /** Appending an arc adds it to the entering arcs of its head and of no other node. */
  lemma EnteringAppend(arcs: seq<Arc>, a: Arc, n: Node)
    ensures Entering(arcs + [a], n) == Entering(arcs, n) + (if a.toNode == n then [a] else [])
  {
    assert (arcs + [a])[..|arcs|] == arcs;
  }

  /** The set of names of `ns`. */
  function NamesOf(ns: seq<Node>): set<string> {
    set n | n in ns :: n.name
  }

  lemma {:induction false} NamesOfDistinct(ns: seq<Node>)
    requires forall i, j :: 0 <= i < j < |ns| ==> ns[i].name != ns[j].name
    ensures |NamesOf(ns)| == |ns|
    decreases |ns|
  {
    if ns != [] {
      var pre, last := ns[..|ns| - 1], ns[|ns| - 1];
      NamesOfDistinct(pre);
      assert ns == pre + [last];
      assert NamesOf(ns) == NamesOf(pre) + {last.name};
      assert last.name !in NamesOf(pre);
    }
  }

  class Network {
    var nodes: seq<Node>
    var arcs: seq<Arc>

    constructor ()
      ensures nodes == [] && arcs == []
    {
      nodes := [];
      arcs := [];
    }

    /**
      No two nodes share a name, so lookup by name is unambiguous: each node
      is the first one carrying its name.
    */
    ghost predicate UniqueNames()
      reads this
    {
      forall i :: 0 <= i < |nodes| ==> FindIndex(nodes, nodes[i].name) == i
    }

    /** Unique names, pairwise. */
    lemma UniqueNamesPairwise()
      requires UniqueNames()
      ensures forall i, j :: 0 <= i < j < |nodes| ==> nodes[i].name != nodes[j].name
    {
      forall i, j | 0 <= i < j < |nodes|
        ensures nodes[i].name != nodes[j].name
      {
        assert FindIndex(nodes, nodes[i].name) == i && FindIndex(nodes, nodes[j].name) == j;
      }
    }

    /** Every arc joins two nodes of this network. */
    ghost predicate ArcsClosed()
      reads this
    {
      forall a :: a in arcs ==> a.fromNode in nodes && a.toNode in nodes
    }

    /** Each node's `arcsOut` and `arcsIn` are exactly its leaving and entering arcs, in order. */
    ghost predicate Adjacency()
      reads this, nodes
    {
      forall n :: n in nodes ==> n.arcsOut == Leaving(arcs, n) && n.arcsIn == Entering(arcs, n)
    }

    ghost predicate Valid()
      reads this, nodes
    {
      UniqueNames() && ArcsClosed() && Adjacency()
    }

    /** The names of all nodes. */
    function NameSet(): set<string>
      reads this
    {
      NamesOf(nodes)
    }

    /** The arcs as name-level edges, in order. */
    function Edges(): (es: seq<Edge>)
      reads this
      ensures |es| == |arcs| && forall k :: 0 <= k < |arcs| ==> es[k] == EdgeOf(arcs[k])
    {
      var a := arcs;
      seq(|a|, k requires 0 <= k < |a| => EdgeOf(a[k]))
    }

    /**
      `M` is the scratch state of the nodes keyed by name: its keys are the
      names of the network and it maps each node's name to that node's label.
    */
    ghost predicate LabelsAre(M: Labels)
      reads this, nodes
    {
      M.Keys == NameSet() && forall n {:trigger n in nodes} :: n in nodes ==> LabelOf(n) == M[n.name]
    }

    /** With unique names, two different nodes have different names. */
    lemma DistinctNames(m: Node, n: Node)
      requires UniqueNames() && m in nodes && n in nodes && m != n
      ensures m.name != n.name
    {
      var i :| 0 <= i < |nodes| && nodes[i] == m;
      var j :| 0 <= j < |nodes| && nodes[j] == n;
      assert FindIndex(nodes, m.name) == i && FindIndex(nodes, n.name) == j;
    }

    /** `GetNode` restricted to names that are taken, where it is never null. */
    function NamedNode(name: string): (n: Node)
      reads this
      requires name in NameSet()
      ensures n in nodes && n.name == name && n == GetNode(name)
    {
      assert GetNode(name) != null by {
        var m :| m in nodes && m.name == name;
      }
      GetNode(name)
    }

    /** Every arc's endpoints are named nodes of the network. */
    lemma EdgesStayWithin()
      requires ArcsClosed()
      ensures EdgesWithin(Edges(), NameSet())
    {
      forall e | e in Edges()
        ensures e.from in NameSet() && e.to in NameSet()
      {
        var k :| 0 <= k < |arcs| && Edges()[k] == e;
        assert arcs[k] in arcs;
      }
    }

    /** With unique names there are as many names as nodes. */
    lemma NameCount()
      requires UniqueNames()
      ensures |NameSet()| == |nodes|
    {
      UniqueNamesPairwise();
      NamesOfDistinct(nodes);
    }

    /**
      `get_node`: the first node called `name`, or null when no node has that
      name.
    */
    function GetNode(name: string): (r: Node?)
      reads this
      ensures r == null <==> forall i :: 0 <= i < |nodes| ==> nodes[i].name != name
      ensures r != null ==> r in nodes && r.name == name
      ensures r != null ==> exists i :: 0 <= i < |nodes| && nodes[i] == r && forall j :: 0 <= j < i ==> nodes[j].name != name
    {
      FindIndexFirst(nodes, name);
      var i := FindIndex(nodes, name);
      if i < |nodes| then nodes[i] else null
    }

    /**
      `add_node`: appends one fresh node called `name` with no arcs, whether or
      not the name is taken.  A network stays valid when the name is new; a
      duplicate name makes lookup ambiguous.
    */
    method AddNode(name: string)
      modifies this
      ensures arcs == old(arcs)
      ensures |nodes| == |old(nodes)| + 1 && nodes[..|old(nodes)|] == old(nodes)
      ensures fresh(nodes[|old(nodes)|]) && nodes[|old(nodes)|].name == name
      ensures nodes[|old(nodes)|].arcsIn == [] && nodes[|old(nodes)|].arcsOut == []
      ensures old(Valid()) && old(GetNode(name)) == null ==> Valid()
      ensures old(GetNode(name)) != null ==> !UniqueNames()
    {
      var n := new Node(name);
      nodes := nodes + [n];
      FindIndexAppend(old(nodes), n, name);
      if old(Valid()) && old(GetNode(name)) == null {
        forall i | 0 <= i < |nodes|
          ensures FindIndex(nodes, nodes[i].name) == i
        {
          FindIndexAppend(old(nodes), n, nodes[i].name);
          if i < |old(nodes)| {
            assert nodes[i] == old(nodes)[i];
          }
        }
        forall m | m in nodes
          ensures m.arcsOut == Leaving(arcs, m) && m.arcsIn == Entering(arcs, m)
        {
          if m == n {
            assert forall a :: a in arcs ==> a.fromNode in old(nodes) && a.toNode in old(nodes);
            assert n !in old(nodes);
            LeavingNone(arcs, n);
            EnteringNone(arcs, n);
          } else {
            assert m in old(nodes);
          }
        }
      }
    }

    /**
      `add_arc`: appends a fresh arc from `nodeFrom` to `nodeTo` to the
      network's arcs, to `nodeFrom`'s leaving arcs and to `nodeTo`'s entering
      arcs, and changes nothing else.  No check is made on the weight.
    */
    method AddArc(nodeFrom: Node, nodeTo: Node, weight: int)
      modifies this`arcs, nodeFrom`arcsOut, nodeTo`arcsIn
      ensures nodes == old(nodes)
      ensures |arcs| == |old(arcs)| + 1 && arcs[..|old(arcs)|] == old(arcs)
      ensures fresh(arcs[|old(arcs)|])
      ensures arcs[|old(arcs)|].weight == weight
      ensures arcs[|old(arcs)|].fromNode == nodeFrom && arcs[|old(arcs)|].toNode == nodeTo
      ensures nodeFrom.arcsOut == old(nodeFrom.arcsOut) + [arcs[|old(arcs)|]]
      ensures nodeTo.arcsIn == old(nodeTo.arcsIn) + [arcs[|old(arcs)|]]
      ensures nodeFrom != nodeTo ==> nodeFrom.arcsIn == old(nodeFrom.arcsIn) && nodeTo.arcsOut == old(nodeTo.arcsOut)
      ensures nodeFrom.dist == old(nodeFrom.dist) && nodeFrom.pred == old(nodeFrom.pred)
      ensures nodeTo.dist == old(nodeTo.dist) && nodeTo.pred == old(nodeTo.pred)
      ensures old(Valid()) && nodeFrom in nodes && nodeTo in nodes ==> Valid()
    {
      var a := new Arc(weight, nodeFrom, nodeTo);
      arcs := arcs + [a];
      nodeFrom.arcsOut := nodeFrom.arcsOut + [a];
      nodeTo.arcsIn := nodeTo.arcsIn + [a];
      assert arcs[..|arcs| - 1] == old(arcs);
      if old(Valid()) && nodeFrom in nodes && nodeTo in nodes {
        forall m | m in nodes
          ensures m.arcsOut == Leaving(arcs, m) && m.arcsIn == Entering(arcs, m)
        {
          LeavingAppend(old(arcs), a, m);
          EnteringAppend(old(arcs), a, m);
        }
      }
    }
  }
}
