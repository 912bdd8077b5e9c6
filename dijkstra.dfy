/**
  The value-level theory behind the shortest-path engine.

  A node is identified by its name.  The scratch state of a query is a table
  `Labels` from node name to the pair (tentative distance, predecessor name),
  which is what the nodes' `value = [distance, predecessor]` fields hold
  between the steps of the algorithm.  This module defines one relaxation
  step on that table, the predecessor walk that extracts a path, walks along
  arcs and their weights, and the invariant that the greedy loop keeps; from
  that invariant it proves that the finished table holds true shortest
  distances and that the extracted paths realise them.
*/
module Dijkstra {

  import opened Distances

  ghost predicate NonNegative(E: seq<Edge>) {
    forall e :: e in E ==> e.weight >= 0
  }

  /** `u` is an unvisited name of least tentative distance. */
  ghost predicate IsMinIn(L: Labels, U: set<string>, u: string)
    requires U <= L.Keys
  {
    u in U && forall v :: v in U ==> LessEq(L[u].dist, L[v].dist)
  }

  // ---------------------------------------------------------------------------
  // Relaxation
  // ---------------------------------------------------------------------------

  /**
    One turn of the relaxation loop for the chosen node `u`: an arc whose tail
    is not `u` is filtered out; otherwise the head takes the distance through
    `u`, and `u` as predecessor, only when that is a strict improvement.
  */
  function RelaxArc(L: Labels, e: Edge, u: string): (R: Labels)
    requires u in L && e.to in L
    ensures R.Keys == L.Keys
    ensures forall v :: v in L && v != e.to ==> R[v] == L[v]
    ensures R[e.to] == L[e.to] || (e.from == u && R[e.to] == Label(Add(e.weight, L[u].dist), Some(u)))
    ensures e.from == u ==> LessEq(R[e.to].dist, Add(e.weight, L[u].dist))
    ensures LessEq(R[e.to].dist, L[e.to].dist)
    ensures R[e.to] != L[e.to] ==> Less(R[e.to].dist, L[e.to].dist)
  {
    var candidate := Add(e.weight, L[u].dist);
    if e.from == u && Less(candidate, L[e.to].dist) then
      L[e.to := Label(candidate, Some(u))]
    else
      L
  }

  /** The relaxation loop over the arcs `es`, in order. */
  function RelaxAll(L: Labels, es: seq<Edge>, u: string): (R: Labels)
    requires u in L && forall e :: e in es ==> e.to in L
    ensures R.Keys == L.Keys
    decreases |es|
  {
    if es == [] then L
    else RelaxArc(RelaxAll(L, es[..|es| - 1], u), es[|es| - 1], u)
  }

  /** Relaxing one more arc of `E` extends the fold over the prefix `E[..k]` by that arc. */
  lemma RelaxAllPrefix(L: Labels, E: seq<Edge>, k: nat, u: string)
    requires k < |E| && u in L && forall e :: e in E ==> e.to in L
    ensures RelaxAll(L, E[..k + 1], u) == RelaxArc(RelaxAll(L, E[..k], u), E[k], u)
  {
    assert E[..k + 1][..k] == E[..k];
  }

  /**
    Whatever the weights, relaxation never raises a distance, and a node whose
    label changed has strictly improved and now names `u` as predecessor.
  */
  lemma {:induction false} RelaxAllNeverIncreases(L: Labels, es: seq<Edge>, u: string)
    requires u in L && forall e :: e in es ==> e.to in L
    ensures forall v :: v in L ==> LessEq(RelaxAll(L, es, u)[v].dist, L[v].dist)
    ensures forall v :: v in L && RelaxAll(L, es, u)[v] != L[v] ==>
              RelaxAll(L, es, u)[v].pred == Some(u) && Less(RelaxAll(L, es, u)[v].dist, L[v].dist)
    decreases |es|
  {
    if es != [] {
      var pre := es[..|es| - 1];
      RelaxAllNeverIncreases(L, pre, u);
    }
  }

  /**
    With non-negative weights the chosen node keeps its label, and afterwards
    the head of every arc leaving `u` has at most the distance through that arc,
    while a node whose label changed got exactly the distance through some arc
    from `u`, strictly below its old one, with `u` as predecessor.  Together:
    each node's new distance is the minimum of its old one and the distances
    through the arcs from `u` that reach it.
  */
  lemma {:induction false} RelaxAllFromChosen(L: Labels, es: seq<Edge>, u: string)
    requires u in L && forall e :: e in es ==> e.to in L && e.weight >= 0
    ensures RelaxAll(L, es, u)[u] == L[u]
    ensures forall e :: e in es && e.from == u ==>
              LessEq(RelaxAll(L, es, u)[e.to].dist, Add(e.weight, L[u].dist))
    ensures forall v :: v in L && RelaxAll(L, es, u)[v] != L[v] ==>
              && RelaxAll(L, es, u)[v].pred == Some(u)
              && Less(RelaxAll(L, es, u)[v].dist, L[v].dist)
              && exists e :: e in es && e.from == u && e.to == v && RelaxAll(L, es, u)[v].dist == Add(e.weight, L[u].dist)
    decreases |es|
  {
    if es != [] {
      var pre, last := es[..|es| - 1], es[|es| - 1];
      assert es == pre + [last];
      RelaxAllFromChosen(L, pre, u);
      var P := RelaxAll(L, pre, u);
      var R := RelaxAll(L, es, u);
      assert R == RelaxArc(P, last, u);
      forall e | e in es && e.from == u
        ensures LessEq(R[e.to].dist, Add(e.weight, L[u].dist))
      {
        if e != last {
          assert e in pre;
        }
      }
      forall v | v in L && R[v] != L[v]
        ensures R[v].pred == Some(u) && Less(R[v].dist, L[v].dist)
        ensures exists e :: e in es && e.from == u && e.to == v && R[v].dist == Add(e.weight, L[u].dist)
      {
        if R[v] != P[v] {
          assert v == last.to && last in es;
        } else {
          var e :| e in pre && e.from == u && e.to == v && P[v].dist == Add(e.weight, L[u].dist);
          assert e in es;
        }
      }
    }
  }

  // ---------------------------------------------------------------------------
  // Walks along arcs
  // ---------------------------------------------------------------------------

  /** `es` is a directed walk from `a` to `b` along edges of `E`. */
  ghost predicate IsWalk(E: seq<Edge>, a: string, es: seq<Edge>, b: string)
    decreases |es|
  {
    if es == [] then a == b
    else
      var last := es[|es| - 1];
      last in E && last.to == b && IsWalk(E, a, es[..|es| - 1], last.from)
  }

  /** The accumulated arc weight of a walk. */
  function Weight(es: seq<Edge>): int
    decreases |es|
  {
    if es == [] then 0 else Weight(es[..|es| - 1]) + es[|es| - 1].weight
  }

  /** The names a walk from `a` along `es` visits, starting with `a`. */
  function Route(a: string, es: seq<Edge>): (r: seq<string>)
    ensures |r| == |es| + 1 && r[0] == a
    ensures r[|es|] == if es == [] then a else es[|es| - 1].to
    decreases |es|
  {
    if es == [] then [a] else Route(a, es[..|es| - 1]) + [es[|es| - 1].to]
  }

  // ---------------------------------------------------------------------------
  // Predecessor walk
  // ---------------------------------------------------------------------------

  /**
    `rank` strictly decreases along predecessor links, so following them ends.
    Every predecessor is itself a labelled name.
  */
  ghost predicate Ranked(L: Labels, rank: map<string, nat>) {
    forall v :: v in L ==>
      && v in rank
      && (L[v].pred.Some? ==> L[v].pred.value in L && L[v].pred.value in rank && rank[L[v].pred.value] < rank[v])
  }

  /**
    The path to `v`: the predecessor chain walked back from `v`, in
    source-to-destination order.  It ends with `v`, starts at a name without a
    predecessor, and each name is the recorded predecessor of the next.
  */
  function PathTo(L: Labels, v: string, ghost rank: map<string, nat>): (path: seq<string>)
    requires v in L && Ranked(L, rank)
    ensures |path| >= 1 && path[|path| - 1] == v
    ensures forall i :: 0 <= i < |path| ==> path[i] in L
    ensures L[path[0]].pred == None
    ensures forall i :: 0 <= i < |path| - 1 ==> L[path[i + 1]].pred == Some(path[i])
    ensures L[v].pred == None ==> path == [v]
    decreases rank[v]
  {
    match L[v].pred
    case None => [v]
    case Some(p) => PathTo(L, p, rank) + [v]
  }

  // ---------------------------------------------------------------------------
  // The loop invariant of the greedy algorithm
  // ---------------------------------------------------------------------------

  /**
    The link from `v` to its predecessor `p` is backed by an arc: `p` is
    finalised, finite, and `v`'s distance is `p`'s plus that arc's weight.
  */
  ghost predicate PredSound(E: seq<Edge>, L: Labels, U: set<string>, v: string)
    requires v in L && L[v].pred.Some?
  {
    var p := L[v].pred.value;
    && p in L && p !in U && L[p].dist.Fin?
    && exists e :: e in E && e.from == p && e.to == v && L[v].dist == Add(e.weight, L[p].dist)
  }

  /**
    What holds between two greedy steps, for source `s`, labels `L`,
    unvisited set `U` and `k` steps taken, `rank` being the step at which each
    name was finalised (`k` for the unvisited ones).  The finalised names are
    those of `L` outside `U`.
  */
  ghost predicate Inv(E: seq<Edge>, s: string, L: Labels, U: set<string>, rank: map<string, nat>, k: nat) {
    InvShape(E, s, L, U, rank, k) && InvLinks(E, s, L, U) && InvGreedy(E, s, L, U)
  }

  /** The frame of the invariant: the source, the unvisited set, arcs, weights, ranks. */
  ghost predicate InvShape(E: seq<Edge>, s: string, L: Labels, U: set<string>, rank: map<string, nat>, k: nat) {
    && s in L && U <= L.Keys && EdgesWithin(E, L.Keys) && NonNegative(E)
    && L[s] == Label(Fin(0), None)
    && Ranked(L, rank)
    && (forall v :: v in L && v !in U ==> rank[v] < k)
    && (forall v :: v in U ==> rank[v] == k)
    && (forall v :: v in L && L[v].dist.Fin? ==> L[v].dist.n >= 0)
  }

  /** Predecessor links: only the source is reached without one, and each one is backed by an arc. */
  ghost predicate InvLinks(E: seq<Edge>, s: string, L: Labels, U: set<string>)
    requires s in L
  {
    && (forall v :: v in L && L[v].pred.None? && v != s ==> L[v].dist == Inf)
    && (forall v :: v in L && L[v].pred.Some? ==> PredSound(E, L, U, v))
  }

  /** `d` separates the finalised names, at most `d` away, from the unvisited ones, at least `d` away. */
  ghost predicate Separates(L: Labels, U: set<string>, d: Dist)
    requires U <= L.Keys
  {
    && (forall x :: x in L && x !in U ==> LessEq(L[x].dist, d))
    && (forall y :: y in U ==> LessEq(d, L[y].dist))
  }

  /** The greedy part of the invariant. */
  ghost predicate InvGreedy(E: seq<Edge>, s: string, L: Labels, U: set<string>)
    requires U <= L.Keys && EdgesWithin(E, L.Keys)
  {
    // every finalised name is at most as far as every unvisited one
    && (exists d :: Separates(L, U, d))
    // every arc leaving a finalised name has been relaxed
    && (forall e {:trigger e in E} :: e in E && e.from !in U ==> LessEq(L[e.to].dist, Add(e.weight, L[e.from].dist)))
    // a finalised distance is at most the weight of every walk from the source
    && (forall v, es {:trigger IsWalk(E, s, es, v)} :: v in L && v !in U && IsWalk(E, s, es, v) ==> LessEq(L[v].dist, Fin(Weight(es))))
  }

  /** The ranks after a step that finalises one name and leaves `U'` unvisited. */
  ghost function NextRank(rank: map<string, nat>, U': set<string>, k: nat): map<string, nat> {
    map v | v in rank :: if v in U' then k + 1 else rank[v]
  }

  /** The labels right after `spath_initialise`: the source at distance 0, every other name infinite, no predecessors. */
  function InitLabels(names: set<string>, s: string): Labels {
    map v | v in names :: if v == s then Label(Fin(0), None) else Label(Inf, None)
  }

  /** The ranks before the first step: every name at rank 0. */
  ghost function InitRank(L: Labels): map<string, nat> {
    map v | v in L :: 0
  }

  /** The state right after `spath_initialise` satisfies the invariant, with nothing finalised. */
  lemma InitInv(E: seq<Edge>, s: string, names: set<string>)
    requires s in names && EdgesWithin(E, names) && NonNegative(E)
    ensures Inv(E, s, InitLabels(names, s), names, InitRank(InitLabels(names, s)), 0)
  {
    var L := InitLabels(names, s);
    assert L.Keys == names;
    assert Separates(L, names, Fin(0));
  }

  /**
    The key fact of the greedy choice: every walk from the source to an
    unvisited name is at least as heavy as the distance of some unvisited name
    (the first unvisited name on the walk).
  */
  lemma {:induction false} FrontierBound(E: seq<Edge>, s: string, L: Labels, U: set<string>,
                                         rank: map<string, nat>, k: nat, es: seq<Edge>, t: string)
    requires Inv(E, s, L, U, rank, k) && t in U && IsWalk(E, s, es, t)
    ensures exists x :: x in U && LessEq(L[x].dist, Fin(Weight(es)))
    decreases |es|
  {
    if es == [] {
      assert t == s && Weight(es) == 0;
      assert LessEq(L[s].dist, Fin(Weight(es)));
    } else {
      var pre, last := es[..|es| - 1], es[|es| - 1];
      assert IsWalk(E, s, pre, last.from) && last in E;
      assert Weight(es) == Weight(pre) + last.weight;
      if last.from in U {
        FrontierBound(E, s, L, U, rank, k, pre, last.from);
        var x :| x in U && LessEq(L[x].dist, Fin(Weight(pre)));
        assert LessEq(L[x].dist, Fin(Weight(es)));
      } else {
        assert LessEq(L[last.from].dist, Fin(Weight(pre)));
        assert LessEq(L[t].dist, Add(last.weight, L[last.from].dist));
        assert LessEq(L[t].dist, Fin(Weight(es)));
      }
    }
  }

  /**
    What relaxing the arcs of a chosen minimum `u` does to the labels `L`,
    giving `R`: `u` keeps its label; a label that changes belongs to an
    unvisited name other than `u`, names `u` as predecessor, and holds the
    (finite, non-negative) distance through an arc from `u`; and every arc from
    `u` is relaxed.
  */
  ghost predicate StepEffect(E: seq<Edge>, L: Labels, U: set<string>, u: string, R: Labels)
    requires u in L && EdgesWithin(E, L.Keys)
  {
    && R.Keys == L.Keys && R[u] == L[u]
    && (forall v :: v in L && R[v] != L[v] ==>
          && v in U && v != u && R[v].pred == Some(u) && Less(R[v].dist, L[v].dist)
          && R[v].dist.Fin? && R[v].dist.n >= 0 && L[u].dist.Fin?
          && LessEq(L[u].dist, R[v].dist)
          && exists e :: e in E && e.from == u && e.to == v && R[v].dist == Add(e.weight, L[u].dist))
    && (forall e :: e in E && e.from == u ==> LessEq(R[e.to].dist, Add(e.weight, L[u].dist)))
  }

  lemma StepEffectHolds(E: seq<Edge>, s: string, L: Labels, U: set<string>, rank: map<string, nat>, k: nat, u: string)
    requires Inv(E, s, L, U, rank, k) && IsMinIn(L, U, u)
    ensures StepEffect(E, L, U, u, RelaxAll(L, E, u))
  {
    var R := RelaxAll(L, E, u);
    RelaxAllFromChosen(L, E, u);
    forall v | v in L && R[v] != L[v]
      ensures v in U && R[v].dist.Fin? && R[v].dist.n >= 0 && L[u].dist.Fin?
      ensures LessEq(L[u].dist, R[v].dist)
    {
      var e :| e in E && e.from == u && e.to == v && R[v].dist == Add(e.weight, L[u].dist);
      assert LessEq(L[u].dist, R[v].dist);
    }
  }

  /** The chosen minimum's distance is already final: no walk from the source to it is lighter. */
  lemma ChosenIsFinal(E: seq<Edge>, s: string, L: Labels, U: set<string>, rank: map<string, nat>, k: nat, u: string)
    requires Inv(E, s, L, U, rank, k) && IsMinIn(L, U, u)
    ensures forall es :: IsWalk(E, s, es, u) ==> LessEq(L[u].dist, Fin(Weight(es)))
  {
    forall es | IsWalk(E, s, es, u)
      ensures LessEq(L[u].dist, Fin(Weight(es)))
    {
      FrontierBound(E, s, L, U, rank, k, es, u);
    }
  }

  lemma StepKeepsShape(E: seq<Edge>, s: string, L: Labels, U: set<string>, rank: map<string, nat>, k: nat,
                       u: string, R: Labels)
    requires InvShape(E, s, L, U, rank, k) && InvLinks(E, s, L, U) && IsMinIn(L, U, u) && StepEffect(E, L, U, u, R)
    ensures InvShape(E, s, R, U - {u}, NextRank(rank, U - {u}, k), k + 1)
  {
    var U' := U - {u};
    var rank' := NextRank(rank, U', k);
    assert R[s] == L[s];
    assert rank'.Keys == rank.Keys;
    forall v | v in R
      ensures v in rank' && rank'[v] == if v in U' then k + 1 else rank[v]
    {
    }
    forall v | v in R && R[v].pred.Some?
      ensures R[v].pred.value in R && R[v].pred.value in rank' && rank'[R[v].pred.value] < rank'[v]
    {
      if R[v] == L[v] {
        assert PredSound(E, L, U, v);
      }
    }
    assert Ranked(R, rank');
    assert forall v :: v in R && v !in U' ==> rank'[v] < k + 1;
    assert forall v :: v in U' ==> rank'[v] == k + 1;
    assert forall v :: v in R && R[v].dist.Fin? ==> R[v].dist.n >= 0;
  }

  lemma StepKeepsLinks(E: seq<Edge>, s: string, L: Labels, U: set<string>, rank: map<string, nat>, k: nat,
                       u: string, R: Labels)
    requires InvShape(E, s, L, U, rank, k) && InvLinks(E, s, L, U) && IsMinIn(L, U, u) && StepEffect(E, L, U, u, R)
    ensures InvLinks(E, s, R, U - {u})
  {
    forall v | v in R && R[v].pred.Some?
      ensures PredSound(E, R, U - {u}, v)
    {
      var p := R[v].pred.value;
      if R[v] == L[v] {
        assert PredSound(E, L, U, v);
        assert R[p] == L[p];
        var e :| e in E && e.from == p && e.to == v && L[v].dist == Add(e.weight, L[p].dist);
        assert R[v].dist == Add(e.weight, R[p].dist);
      } else {
        var e :| e in E && e.from == u && e.to == v && R[v].dist == Add(e.weight, L[u].dist);
        assert R[v].dist == Add(e.weight, R[p].dist);
      }
    }
  }

  lemma StepKeepsGreedy(E: seq<Edge>, s: string, L: Labels, U: set<string>, rank: map<string, nat>, k: nat,
                        u: string, R: Labels)
    requires InvShape(E, s, L, U, rank, k) && InvGreedy(E, s, L, U) && IsMinIn(L, U, u) && StepEffect(E, L, U, u, R)
    requires forall es :: IsWalk(E, s, es, u) ==> LessEq(L[u].dist, Fin(Weight(es)))
    ensures InvGreedy(E, s, R, U - {u})
  {
    var U' := U - {u};
    var d :| Separates(L, U, d);
    forall x | x in R && x !in U'
      ensures LessEq(R[x].dist, L[u].dist)
    {
      assert R[x] == L[x];
    }
    assert Separates(R, U', L[u].dist);
    forall e | e in E && e.from !in U'
      ensures LessEq(R[e.to].dist, Add(e.weight, R[e.from].dist))
    {
      assert R[e.from] == L[e.from];
      if e.from != u {
        assert LessEq(L[e.to].dist, Add(e.weight, L[e.from].dist));
      }
    }
    forall v, es | v in R && v !in U' && IsWalk(E, s, es, v)
      ensures LessEq(R[v].dist, Fin(Weight(es)))
    {
      assert R[v] == L[v];
    }
  }

  /**
    One greedy step (`spath_iteration`) keeps the invariant: finalising an
    unvisited name `u` of least distance and relaxing the arcs that leave it.
  */
  lemma StepInv(E: seq<Edge>, s: string, L: Labels, U: set<string>, rank: map<string, nat>, k: nat, u: string)
    requires Inv(E, s, L, U, rank, k) && IsMinIn(L, U, u)
    ensures Inv(E, s, RelaxAll(L, E, u), U - {u}, NextRank(rank, U - {u}, k), k + 1)
  {
    var R := RelaxAll(L, E, u);
    StepEffectHolds(E, s, L, U, rank, k, u);
    ChosenIsFinal(E, s, L, U, rank, k, u);
    StepKeepsShape(E, s, L, U, rank, k, u, R);
    StepKeepsLinks(E, s, L, U, rank, k, u, R);
    StepKeepsGreedy(E, s, L, U, rank, k, u, R);
  }

  /**
    While the invariant holds, the extracted path to a name with a finite
    distance is the route of a walk from the source along arcs whose weight is
    exactly that distance.
  */
  lemma {:induction false} PathToWalk(E: seq<Edge>, s: string, L: Labels, U: set<string>,
                                      rank: map<string, nat>, k: nat, v: string)
    requires Inv(E, s, L, U, rank, k) && v in L && L[v].dist.Fin?
    ensures exists es :: IsWalk(E, s, es, v) && Weight(es) == L[v].dist.n && Route(s, es) == PathTo(L, v, rank)
    decreases rank[v]
  {
    match L[v].pred
    case None =>
      assert v == s;
      assert IsWalk(E, s, [], v) && Weight([]) == L[v].dist.n && Route(s, []) == PathTo(L, v, rank);
    case Some(p) =>
      assert PredSound(E, L, U, v);
      var e :| e in E && e.from == p && e.to == v && L[v].dist == Add(e.weight, L[p].dist);
      PathToWalk(E, s, L, U, rank, k, p);
      var es :| IsWalk(E, s, es, p) && Weight(es) == L[p].dist.n && Route(s, es) == PathTo(L, p, rank);
      var es' := es + [e];
      assert es'[..|es'| - 1] == es;
      assert IsWalk(E, s, es', v) && Weight(es') == L[v].dist.n && Route(s, es') == PathTo(L, v, rank);
  }

  /**
    When no name is left unvisited, every distance is the shortest: it is
    infinite exactly when no walk from the source reaches the name, it is at
    most the weight of every walk, and the extracted path is a walk of that
    weight from the source.
  */
  lemma ShortestPathsFound(E: seq<Edge>, s: string, L: Labels, rank: map<string, nat>, k: nat, v: string)
    requires Inv(E, s, L, {}, rank, k) && v in L
    ensures L[v].dist == Inf <==> forall es :: !IsWalk(E, s, es, v)
    ensures forall es :: IsWalk(E, s, es, v) ==> L[v].dist.Fin? && L[v].dist.n <= Weight(es)
    ensures L[v].dist.Fin? ==>
              exists es :: IsWalk(E, s, es, v) && Weight(es) == L[v].dist.n && Route(s, es) == PathTo(L, v, rank)
    ensures L[v].dist.Fin? ==> PathTo(L, v, rank)[0] == s
  {
    if L[v].dist.Fin? {
      PathToWalk(E, s, L, {}, rank, k, v);
    }
  }

  /**
    What a shortest-path query from `s` to `t` over the arcs `E` answers:
    nothing at all exactly when no walk reaches `t`; otherwise a distance and
    a path that are the weight and the route of one walk from `s` to `t`, no
    walk from `s` to `t` being lighter.  The path runs from `s` to `t`.
  */
  ghost predicate IsShortestAnswer(E: seq<Edge>, s: string, t: string, distance: Option<int>, path: Option<seq<string>>) {
    && (distance.None? <==> path.None?)
    && (distance.None? <==> forall es :: !IsWalk(E, s, es, t))
    && (distance.Some? ==> exists es :: IsWalk(E, s, es, t) && Weight(es) == distance.value && Route(s, es) == path.value)
    && (distance.Some? ==> forall es :: IsWalk(E, s, es, t) ==> distance.value <= Weight(es))
    && (path.Some? ==> |path.value| >= 1 && path.value[0] == s && path.value[|path.value| - 1] == t)
  }

  /**
    The distance of a shortest-path answer is determined by the arcs and the
    endpoints alone, whichever minimum each step happened to pick; only the
    path may differ.
  */
  lemma ShortestDistanceUnique(E: seq<Edge>, s: string, t: string,
                               d1: Option<int>, p1: Option<seq<string>>, d2: Option<int>, p2: Option<seq<string>>)
    requires IsShortestAnswer(E, s, t, d1, p1) && IsShortestAnswer(E, s, t, d2, p2)
    ensures d1 == d2
  {
    if d1.Some? {
      var es1 :| IsWalk(E, s, es1, t) && Weight(es1) == d1.value && Route(s, es1) == p1.value;
      var es2 :| IsWalk(E, s, es2, t) && Weight(es2) == d2.value && Route(s, es2) == p2.value;
      assert d1.value <= Weight(es2) && d2.value <= Weight(es1);
    }
  }
}
