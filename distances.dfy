/**
  The values shared by the graph model and the shortest-path theory: tentative
  distances with a sentinel for `np.inf`, arcs seen by the names of their
  endpoints, and the scratch pair (distance, predecessor) of a node, keyed by
  its name.
*/
module Distances {

  datatype Option<+T> = None | Some(value: T)

  /** A tentative distance: a finite value, or the sentinel that stands for `np.inf`. */
  datatype Dist = Fin(n: int) | Inf

  /** `a < b`, with Inf above every finite value and not below itself. */
  predicate Less(a: Dist, b: Dist) {
    if a.Inf? then false else if b.Inf? then true else a.n < b.n
  }

  /** `a <= b` in the same order. */
  predicate LessEq(a: Dist, b: Dist) {
    !Less(b, a)
  }

  /** `arc.weight + distance`: adding a weight to infinity leaves infinity. */
  function Add(w: int, d: Dist): Dist {
    if d.Inf? then Inf else Fin(w + d.n)
  }

  /** The name-level view of an arc: tail name, head name, weight. */
  datatype Edge = Edge(from: string, to: string, weight: int)

  /** The scratch state of one node: distance and the name of its predecessor. */
  datatype Label = Label(dist: Dist, pred: Option<string>)

  type Labels = map<string, Label>

  /** Every edge of `E` joins two of `names`. */
  ghost predicate EdgesWithin(E: seq<Edge>, names: set<string>) {
    forall e :: e in E ==> e.from in names && e.to in names
  }
}
