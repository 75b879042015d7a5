/** The adjacency-list graph of dijkstras.js (`Graph`, `Edge`) and the paths through it
    that shortest distances are measured against. */
module Graphs {
  import opened Types

  /** An out-edge: the vertex it reaches (the source's `tail`) and its weight. */
  datatype Edge = Edge(target: Vertex, w: nat)

  /** `order` is the insertion order of the `vertices` Map, which is the order its
      `keys()` are visited in; `adj` maps each vertex to its edge list, head first. */
  datatype Graph = Graph(order: seq<Vertex>, adj: map<Vertex, seq<Edge>>)

  /** What the Graph class maintains: keys listed once each in insertion order, and
      every edge target is itself a key. */
  ghost predicate Valid(g: Graph)
  {
    && (forall i, j :: 0 <= i < j < |g.order| ==> g.order[i] != g.order[j])
    && (forall v :: v in g.adj <==> v in g.order)
    && (forall v, e :: v in g.adj && e in g.adj[v] ==> e.target in g.adj)
  }

  /** The constructor: no vertices. */
  function Empty(): (g: Graph)
    ensures Valid(g) && g.adj == map[]
  {
    Graph([], map[])
  }

  /** `addVertex`: a new vertex gets an empty list and is returned; a present one
      yields null and the graph is left as it was. */
  function AddVertex(g: Graph, v: Vertex): (r: (Graph, Option<Vertex>))
    ensures v !in g.adj ==>
              r.1 == Some(v) && r.0.order == g.order + [v] && r.0.adj == g.adj[v := []]
    ensures v in g.adj ==> r.1 == None && r.0 == g
    ensures Valid(g) ==> Valid(r.0)
  {
    if v !in g.adj then (Graph(g.order + [v], g.adj[v := []]), Some(v))
    else (g, None)
  }

  /** `addEdge`: add both endpoints if needed, then put `Edge(b, w)` at the head of
      `a`'s list. Earlier edges, including duplicates, stay behind it. */
  function AddEdge(g: Graph, a: Vertex, b: Vertex, w: nat): (r: Graph)
    ensures r.adj.Keys == g.adj.Keys + {a, b}
    ensures r.adj[a] == [Edge(b, w)] + (if a in g.adj then g.adj[a] else [])
    ensures forall u :: u in g.adj && u != a ==> r.adj[u] == g.adj[u]
    ensures b != a && b !in g.adj ==> r.adj[b] == []
    ensures r.order == g.order + (if a in g.adj then [] else [a])
                               + (if b in g.adj || b == a then [] else [b])
    ensures Valid(g) ==> Valid(r)
  {
    var g1 := AddVertex(g, a).0;
    var g2 := AddVertex(g1, b).0;
    Graph(g2.order, g2.adj[a := [Edge(b, w)] + g2.adj[a]])
  }

  /** One step of a walk: leave `from` along `edge`. */
  datatype Hop = Hop(from: Vertex, edge: Edge)

  type Path = seq<Hop>

  /** `p` is a walk in `g` from `s` to `v`. */
  ghost predicate IsPath(g: Graph, s: Vertex, v: Vertex, p: Path)
  {
    if |p| == 0 then v == s && s in g.adj
    else
      && p[0].from == s
      && p[|p| - 1].edge.target == v
      && (forall i :: 0 <= i < |p| ==> p[i].from in g.adj && p[i].edge in g.adj[p[i].from])
      && (forall i, j :: 0 <= i && j == i + 1 && j < |p| ==> p[j].from == p[i].edge.target)
  }

  /** The total weight of a walk. */
  function Len(p: Path): nat
  {
    if |p| == 0 then 0 else Len(p[..|p| - 1]) + p[|p| - 1].edge.w
  }

  /** A walk to `u` followed by an edge out of `u` is a walk to that edge's target. */
  lemma ExtendPath(g: Graph, s: Vertex, u: Vertex, p: Path, e: Edge)
    requires IsPath(g, s, u, p)
    requires u in g.adj && e in g.adj[u]
    ensures IsPath(g, s, e.target, p + [Hop(u, e)])
    ensures Len(p + [Hop(u, e)]) == Len(p) + e.w
  {
    var q := p + [Hop(u, e)];
    assert q[..|q| - 1] == p;
  }

  /** Dropping the last hop of a walk leaves a walk to that hop's origin. */
  lemma TruncatePath(g: Graph, s: Vertex, v: Vertex, p: Path)
    requires IsPath(g, s, v, p) && |p| > 0
    ensures IsPath(g, s, p[|p| - 1].from, p[..|p| - 1])
  {
    var q := p[..|p| - 1];
    if |q| > 0 {
      assert p[|p| - 1].from == q[|q| - 1].edge.target;
    }
  }

  /** No edge can shorten `d`: the condition the relaxation loop leaves behind. */
  ghost predicate Feasible(g: Graph, d: map<Vertex, Dist>)
  {
    && (forall v :: v in g.adj ==> v in d)
    && (forall v, e :: v in g.adj && e in g.adj[v] ==>
          e.target in d && Le(d[e.target], Plus(d[v], e.w)))
  }

  /** Every finite entry of `d` is the weight of some walk from `s`. */
  ghost predicate Attained(g: Graph, s: Vertex, d: map<Vertex, Dist>)
  {
    forall v :: v in d && d[v].Fin? ==> exists p :: IsPath(g, s, v, p) && Len(p) == d[v].n
  }

  /** No walk from `s` is lighter than what `d` records for its end. */
  ghost predicate Optimal(g: Graph, s: Vertex, d: map<Vertex, Dist>)
  {
    forall v, p :: IsPath(g, s, v, p) ==> v in d && Le(d[v], Fin(Len(p)))
  }

  /** A feasible map that is 0 at the source bounds every walk from below. */
  lemma {:induction false} LowerBound(g: Graph, s: Vertex, d: map<Vertex, Dist>, v: Vertex, p: Path)
    requires Valid(g) && Feasible(g, d) && s in d && d[s] == Fin(0)
    requires IsPath(g, s, v, p)
    ensures v in d && Le(d[v], Fin(Len(p)))
    decreases |p|
  {
    if |p| > 0 {
      var q := p[..|p| - 1];
      var last := p[|p| - 1];
      TruncatePath(g, s, v, p);
      LowerBound(g, s, d, last.from, q);
      assert Le(d[v], Plus(d[last.from], last.edge.w));
      PlusMonotone(d[last.from], Fin(Len(q)), last.edge.w);
      LeTrans(d[v], Plus(d[last.from], last.edge.w), Fin(Len(p)));
    }
  }

  lemma PlusMonotone(a: Dist, b: Dist, w: nat)
    requires Le(a, b)
    ensures Le(Plus(a, w), Plus(b, w))
  {
  }

  lemma FeasibleOptimal(g: Graph, s: Vertex, d: map<Vertex, Dist>)
    requires Valid(g) && Feasible(g, d) && s in d && d[s] == Fin(0)
    ensures Optimal(g, s, d)
  {
    forall v, p | IsPath(g, s, v, p)
      ensures v in d && Le(d[v], Fin(Len(p)))
    {
      LowerBound(g, s, d, v, p);
    }
  }

  /** Shortest distances are unique: two maps over the same keys that are both attained
      and optimal agree everywhere. */
  lemma ShortestUnique(g: Graph, s: Vertex, d1: map<Vertex, Dist>, d2: map<Vertex, Dist>)
    requires d1.Keys == d2.Keys
    requires Attained(g, s, d1) && Optimal(g, s, d1)
    requires Attained(g, s, d2) && Optimal(g, s, d2)
    ensures d1 == d2
  {
    forall v | v in d1
      ensures d1[v] == d2[v]
    {
      if d1[v].Fin? {
        var p :| IsPath(g, s, v, p) && Len(p) == d1[v].n;
        assert Le(d2[v], d1[v]);
      }
      if d2[v].Fin? {
        var p :| IsPath(g, s, v, p) && Len(p) == d2[v].n;
        assert Le(d1[v], d2[v]);
      }
    }
  }

  /** Under an attained and optimal map, `Inf` means exactly that no walk exists. */
  lemma InfIffUnreachable(g: Graph, s: Vertex, d: map<Vertex, Dist>, v: Vertex)
    requires Attained(g, s, d) && Optimal(g, s, d) && v in d
    ensures d[v] == Inf <==> !exists p :: IsPath(g, s, v, p)
  {
    if d[v].Fin? {
      var p :| IsPath(g, s, v, p) && Len(p) == d[v].n;
    }
    if exists p :: IsPath(g, s, v, p) {
      var p :| IsPath(g, s, v, p);
      assert Le(d[v], Fin(Len(p)));
    }
  }
}
