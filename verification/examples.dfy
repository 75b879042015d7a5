/** Concrete runs: the four-vertex graph drawn at the top of dijkstras.js, a graph with an
    unreachable vertex, a source that is not the first vertex, and small heap scenarios,
    each settled from the contracts of the model. */
module Scenarios {
  import opened Types
  import opened MinHeap
  import opened Graphs
  import opened Dijkstra

  /** Graph 1 of dijkstras.js, built edge by edge in the order of its edge list. */
  function ExampleGraph(): Graph
  {
    var g := Graphs.Empty();
    var g := AddEdge(g, 1, 2, 1);
    var g := AddEdge(g, 1, 3, 4);
    var g := AddEdge(g, 2, 3, 2);
    var g := AddEdge(g, 2, 4, 6);
    AddEdge(g, 3, 4, 3)
  }

  /** The graph after each prefix of that edge list; edge lists come out newest first. */
  function AfterEdges(k: nat): Graph
    requires 1 <= k <= 5
  {
    if k == 1 then Graph([1, 2], map[1 := [Edge(2, 1)], 2 := []])
    else if k == 2 then Graph([1, 2, 3], map[1 := [Edge(3, 4), Edge(2, 1)], 2 := [], 3 := []])
    else if k == 3 then
      Graph([1, 2, 3], map[1 := [Edge(3, 4), Edge(2, 1)], 2 := [Edge(3, 2)], 3 := []])
    else if k == 4 then
      Graph([1, 2, 3, 4], map[1 := [Edge(3, 4), Edge(2, 1)], 2 := [Edge(4, 6), Edge(3, 2)],
                              3 := [], 4 := []])
    else
      Graph([1, 2, 3, 4], map[1 := [Edge(3, 4), Edge(2, 1)], 2 := [Edge(4, 6), Edge(3, 2)],
                              3 := [Edge(4, 3)], 4 := []])
  }

  /** Two graphs with the same vertex order and the same edge list at every key are equal. */
  lemma SameGraph(r: Graph, t: Graph)
    requires r.order == t.order && r.adj.Keys == t.adj.Keys
    requires forall k | k in r.adj :: r.adj[k] == t.adj[k]
    ensures r == t
  {
    forall k | k in r.adj
      ensures k in t.adj && r.adj[k] == t.adj[k]
    {
    }
    forall k | k in t.adj
      ensures k in r.adj
    {
    }
  }

  lemma FirstEdge()
    ensures AddEdge(Graphs.Empty(), 1, 2, 1) == AfterEdges(1)
  {
    var r := AddEdge(Graphs.Empty(), 1, 2, 1);
    assert [Edge(2, 1)] + [] == [Edge(2, 1)];
    assert r.adj.Keys == AfterEdges(1).adj.Keys;
    assert forall k | k in r.adj :: r.adj[k] == AfterEdges(1).adj[k];
    assert r.order == AfterEdges(1).order;
    SameGraph(r, AfterEdges(1));
  }

  lemma SecondEdge()
    ensures AddEdge(AfterEdges(1), 1, 3, 4) == AfterEdges(2)
  {
    var r := AddEdge(AfterEdges(1), 1, 3, 4);
    assert r.adj.Keys == AfterEdges(2).adj.Keys;
    assert forall k | k in r.adj :: r.adj[k] == AfterEdges(2).adj[k];
    assert r.order == AfterEdges(2).order;
    SameGraph(r, AfterEdges(2));
  }

  lemma ThirdEdge()
    ensures AddEdge(AfterEdges(2), 2, 3, 2) == AfterEdges(3)
  {
    var r := AddEdge(AfterEdges(2), 2, 3, 2);
    assert [Edge(3, 2)] + [] == [Edge(3, 2)];
    assert r.adj.Keys == AfterEdges(3).adj.Keys;
    assert forall k | k in r.adj :: r.adj[k] == AfterEdges(3).adj[k];
    assert r.order == AfterEdges(3).order;
    SameGraph(r, AfterEdges(3));
  }

  lemma FourthEdge()
    ensures AddEdge(AfterEdges(3), 2, 4, 6) == AfterEdges(4)
  {
    var r := AddEdge(AfterEdges(3), 2, 4, 6);
    assert r.adj.Keys == AfterEdges(4).adj.Keys;
    assert forall k | k in r.adj :: r.adj[k] == AfterEdges(4).adj[k];
    assert r.order == AfterEdges(4).order;
    SameGraph(r, AfterEdges(4));
  }

  lemma FifthEdge()
    ensures AddEdge(AfterEdges(4), 3, 4, 3) == AfterEdges(5)
  {
    var r := AddEdge(AfterEdges(4), 3, 4, 3);
    assert [Edge(4, 3)] + [] == [Edge(4, 3)];
    assert r.adj.Keys == AfterEdges(5).adj.Keys;
    assert forall k | k in r.adj :: r.adj[k] == AfterEdges(5).adj[k];
    assert r.order == AfterEdges(5).order;
    SameGraph(r, AfterEdges(5));
  }

  lemma ExampleGraphShape()
    ensures ExampleGraph() == AfterEdges(5)
  {
    FirstEdge();
    SecondEdge();
    ThirdEdge();
    FourthEdge();
    FifthEdge();
  }

  lemma ExampleValid()
    ensures Graphs.Valid(AfterEdges(5))
  {
    var g := AfterEdges(5);
    assert g.adj.Keys == {1, 2, 3, 4};
    forall v, x | v in g.adj && x in g.adj[v]
      ensures x.target in g.adj
    {
      assert v == 1 || v == 2 || v == 3 || v == 4;
    }
  }

  function ExampleDistances(): map<Vertex, Dist>
  {
    map[1 := Fin(0), 2 := Fin(1), 3 := Fin(3), 4 := Fin(6)]
  }

  /** The expected distances admit no relaxable edge ... */
  lemma ExampleFeasible()
    ensures Feasible(AfterEdges(5), ExampleDistances())
  {
    var g := AfterEdges(5);
    var e := ExampleDistances();
    forall v, x | v in g.adj && x in g.adj[v]
      ensures x.target in e && Le(e[x.target], Plus(e[v], x.w))
    {
      assert v == 1 || v == 2 || v == 3 || v == 4;
    }
  }

  /** ... and each is the weight of a walk: 1 -> 2 -> 3 -> 4. */
  lemma ExampleAttained()
    ensures Attained(AfterEdges(5), 1, ExampleDistances())
  {
    var g := AfterEdges(5);
    var p2 := [Hop(1, Edge(2, 1))];
    var p3 := p2 + [Hop(2, Edge(3, 2))];
    var p4 := p3 + [Hop(3, Edge(4, 3))];
    assert IsPath(g, 1, 1, []);
    assert IsPath(g, 1, 2, p2) && Len(p2) == 1;
    assert IsPath(g, 1, 3, p3) && Len(p3) == 3;
    assert IsPath(g, 1, 4, p4) && Len(p4) == 6;
  }

  /** Single-source distances from vertex 1 on Graph 1, built edge by edge, are
      {1:0, 2:1, 3:3, 4:6}, and the vertices are extracted in that order. */
  method ExampleRun() returns (d: map<Vertex, Dist>, extracted: seq<Vertex>)
    ensures d == map[1 := Fin(0), 2 := Fin(1), 3 := Fin(3), 4 := Fin(6)]
    ensures extracted == [1, 2, 3, 4]
  {
    var g := ExampleGraph();
    ExampleGraphShape();
    ExampleValid();
    d, extracted := Run(g, 1);
    ExampleUnique(d);
    SortedByDistinctKeys(extracted, d);
  }

  /** Any attained, optimal map over the vertices of Graph 1 is the expected one. */
  lemma ExampleUnique(d: map<Vertex, Dist>)
    requires d.Keys == AfterEdges(5).adj.Keys
    requires Attained(AfterEdges(5), 1, d) && Optimal(AfterEdges(5), 1, d)
    ensures d == ExampleDistances()
  {
    ExampleAttained();
    ExampleOptimal();
    ShortestUnique(AfterEdges(5), 1, d, ExampleDistances());
  }

  lemma ExampleOptimal()
    ensures Optimal(AfterEdges(5), 1, ExampleDistances())
    ensures ExampleDistances().Keys == AfterEdges(5).adj.Keys
  {
    ExampleValid();
    ExampleFeasible();
    FeasibleOptimal(AfterEdges(5), 1, ExampleDistances());
  }

  /** A repeat-free listing of the keys {1, 2, 3, 4} sorted by the distances 0, 1, 3, 6
      can only be the listing in that order. */
  lemma SortedByDistinctKeys(s: seq<Vertex>, d: map<Vertex, Dist>)
    requires d == ExampleDistances()
    requires |s| == |AfterEdges(5).order| && forall v :: v in AfterEdges(5).adj <==> v in s
    requires forall i, j :: 0 <= i < j < |s| ==> s[i] != s[j]
    requires Ascending(s, d)
    ensures s == [1, 2, 3, 4]
  {
    assert |s| == 4;
    assert AfterEdges(5).adj.Keys == d.Keys == {1, 2, 3, 4};
    assert 1 in s && 2 in s && 3 in s && 4 in s;
    var i1 :| 0 <= i1 < 4 && s[i1] == 1;
    var i2 :| 0 <= i2 < 4 && s[i2] == 2;
    var i3 :| 0 <= i3 < 4 && s[i3] == 3;
    var i4 :| 0 <= i4 < 4 && s[i4] == 4;
    assert i1 == 0;
    assert i2 == 1;
    assert i3 == 2;
    assert i4 == 3;
  }

  /** Edges 1 -> 2 of weight 3 and 3 -> 1 of weight 1. */
  function Unreachable(): Graph
  {
    Graph([1, 2, 3], map[1 := [Edge(2, 3)], 2 := [], 3 := [Edge(1, 1)]])
  }

  /** The graph after its first edge only. */
  function UnreachablePrefix(): Graph
  {
    Graph([1, 2], map[1 := [Edge(2, 3)], 2 := []])
  }

  lemma UnreachableFirstEdge()
    ensures AddEdge(Graphs.Empty(), 1, 2, 3) == UnreachablePrefix()
  {
    var r := AddEdge(Graphs.Empty(), 1, 2, 3);
    assert [Edge(2, 3)] + [] == [Edge(2, 3)];
    assert r.adj.Keys == UnreachablePrefix().adj.Keys;
    assert forall k | k in r.adj :: r.adj[k] == UnreachablePrefix().adj[k];
    assert r.order == UnreachablePrefix().order;
    SameGraph(r, UnreachablePrefix());
  }

  lemma UnreachableSecondEdge()
    ensures AddEdge(UnreachablePrefix(), 3, 1, 1) == Unreachable()
  {
    var r := AddEdge(UnreachablePrefix(), 3, 1, 1);
    assert [Edge(1, 1)] + [] == [Edge(1, 1)];
    assert r.adj.Keys == Unreachable().adj.Keys;
    assert forall k | k in r.adj :: r.adj[k] == Unreachable().adj[k];
    assert r.order == Unreachable().order;
    SameGraph(r, Unreachable());
  }

  lemma UnreachableShape()
    ensures AddEdge(AddEdge(Graphs.Empty(), 1, 2, 3), 3, 1, 1) == Unreachable()
  {
    UnreachableFirstEdge();
    UnreachableSecondEdge();
  }

  lemma UnreachableValid()
    ensures Graphs.Valid(Unreachable())
  {
    var g := Unreachable();
    assert g.adj.Keys == {1, 2, 3};
    forall v, x | v in g.adj && x in g.adj[v]
      ensures x.target in g.adj
    {
      assert v == 1 || v == 2 || v == 3;
    }
  }

  function UnreachableDistances(): map<Vertex, Dist>
  {
    map[1 := Fin(0), 2 := Fin(3), 3 := Inf]
  }

  lemma UnreachableFeasible()
    ensures Feasible(Unreachable(), UnreachableDistances())
  {
    var g := Unreachable();
    var e := UnreachableDistances();
    forall v, x | v in g.adj && x in g.adj[v]
      ensures x.target in e && Le(e[x.target], Plus(e[v], x.w))
    {
      assert v == 1 || v == 2 || v == 3;
    }
  }

  lemma UnreachableAttained()
    ensures Attained(Unreachable(), 1, UnreachableDistances())
  {
    var g := Unreachable();
    assert IsPath(g, 1, 1, []);
    assert IsPath(g, 1, 2, [Hop(1, Edge(2, 3))]) && Len([Hop(1, Edge(2, 3))]) == 3;
  }

  /** Any attained, optimal map over these three vertices is {1:0, 2:3, 3:Inf}. */
  lemma UnreachableUnique(d: map<Vertex, Dist>)
    requires d.Keys == Unreachable().adj.Keys
    requires Attained(Unreachable(), 1, d) && Optimal(Unreachable(), 1, d)
    ensures d == UnreachableDistances()
  {
    UnreachableAttained();
    UnreachableOptimal();
    ShortestUnique(Unreachable(), 1, d, UnreachableDistances());
  }

  lemma UnreachableOptimal()
    ensures Optimal(Unreachable(), 1, UnreachableDistances())
    ensures UnreachableDistances().Keys == Unreachable().adj.Keys
  {
    UnreachableValid();
    UnreachableFeasible();
    FeasibleOptimal(Unreachable(), 1, UnreachableDistances());
  }

  /** Vertex 3 only has an edge into the source, so no walk reaches it and it keeps
      the infinity sentinel. */
  method UnreachableRun() returns (d: map<Vertex, Dist>)
    ensures d == map[1 := Fin(0), 2 := Fin(3), 3 := Inf]
  {
    UnreachableValid();
    var extracted;
    d, extracted := Run(Unreachable(), 1);
    UnreachableUnique(d);
  }

  /** Distances from vertex 3, the last vertex inserted: {1:1, 2:4, 3:0}. */
  function OtherStartDistances(): map<Vertex, Dist>
  {
    map[1 := Fin(1), 2 := Fin(4), 3 := Fin(0)]
  }

  lemma OtherStartFeasible()
    ensures Feasible(Unreachable(), OtherStartDistances())
  {
    var g := Unreachable();
    var e := OtherStartDistances();
    forall v, x | v in g.adj && x in g.adj[v]
      ensures x.target in e && Le(e[x.target], Plus(e[v], x.w))
    {
      assert v == 1 || v == 2 || v == 3;
    }
  }

  lemma OtherStartAttained()
    ensures Attained(Unreachable(), 3, OtherStartDistances())
  {
    var g := Unreachable();
    var p1 := [Hop(3, Edge(1, 1))];
    var p2 := p1 + [Hop(1, Edge(2, 3))];
    assert IsPath(g, 3, 3, []);
    assert IsPath(g, 3, 1, p1) && Len(p1) == 1;
    assert IsPath(g, 3, 2, p2) && Len(p2) == 4;
  }

  lemma OtherStartOptimal()
    ensures Optimal(Unreachable(), 3, OtherStartDistances())
    ensures OtherStartDistances().Keys == Unreachable().adj.Keys
  {
    UnreachableValid();
    OtherStartFeasible();
    FeasibleOptimal(Unreachable(), 3, OtherStartDistances());
  }

  lemma OtherStartUnique(d: map<Vertex, Dist>)
    requires d.Keys == Unreachable().adj.Keys
    requires Attained(Unreachable(), 3, d) && Optimal(Unreachable(), 3, d)
    ensures d == OtherStartDistances()
  {
    OtherStartAttained();
    OtherStartOptimal();
    ShortestUnique(Unreachable(), 3, d, OtherStartDistances());
  }

  /** Lines 52-53 of dijkstras.js as written, from vertex 3 of the same graph: slot 0 holds vertex 1,
      which receives distance 0 while `dists` keeps `MAX` for it, so the heap no longer
      agrees with `dists`; vertices 1 and 3 both claim slot 0. */
  method SeedOtherStart() returns (root: Node, d: map<Vertex, Dist>)
    ensures root == Node(1, Fin(0)) && 1 in d && d[1] == Inf && 3 in d && d[3] == Fin(0)
  {
    UnreachableValid();
    var seeded := Seed(Unreachable(), 3);
    assert !(MinHeap.Valid(seeded.value.0) && Agrees(seeded.value.0.nodes, seeded.value.1));
    root := seeded.value.0.nodes[0];
    d := seeded.value.1;
  }

  /** Lines 46-77 as written, traced from vertex 3 of the same graph. Vertex 1 leaves the
      root first with `dists[1]` at `MAX` and relaxes nothing. Vertex 3 comes next and
      lowers `dists[1]` to 1, but `decreaseKey(1, 1)` follows vertex 1's stale slot 0 and
      rewrites vertex 2's node there. Vertex 2 is then extracted without its distance
      ever being set, so it ends at `MAX` although the walk 3 -> 1 -> 2 weighs 4. */
  method AsWrittenFromThree() returns (d: map<Vertex, Dist>)
    ensures d == map[1 := Fin(1), 2 := Inf, 3 := Fin(0)]
    ensures exists p :: IsPath(Unreachable(), 3, 2, p) && Len(p) == 4
  {
    var g := Unreachable();
    var h;
    h, d := AsWrittenSeed();
    // First pass: the root is vertex 1. Its edge 1 -> 2 offers MAX + 3, not below MAX.
    var u;
    u, h := FirstPass(h);
    assert g.adj[u] == [Edge(2, 3)] && !Lt(Plus(d[u], 3), d[2]);
    // Second pass: vertex 3. Its edge 3 -> 1 offers 0 + 1, below MAX.
    u, h := SecondPass(h);
    assert g.adj[u] == [Edge(1, 1)] && Lt(Plus(d[u], 1), d[1]);
    d := d[1 := Plus(d[u], 1)];
    h := StaleDecrease(h);
    // Third pass: vertex 2, carrying the key meant for vertex 1, has no out-edges.
    u, h := ThirdPass(h);
    assert g.adj[u] == [] && h.size == 0;
    var p := [Hop(3, Edge(1, 1)), Hop(1, Edge(2, 3))];
    assert IsPath(g, 3, 2, p) && Len(p) == 4;
  }

  /** The slots after seeding from 3: vertex 3 is recorded at slot 0, which vertex 1
      also occupies. */
  function SeededLocs(): map<Vertex, int>
  {
    map[1 := 0, 2 := 1, 3 := 0]
  }

  function StaleLocs(): map<Vertex, int>
  {
    map[1 := 0, 2 := 0, 3 := 0]
  }

  /** Lines 46-54 as written from vertex 3. */
  method AsWrittenSeed() returns (h: Heap, d: map<Vertex, Dist>)
    ensures h == Heap([Node(1, Fin(0)), Node(2, Inf), Node(3, Inf)], 3, SeededLocs())
    ensures d == map[1 := Inf, 2 := Inf, 3 := Fin(0)]
  {
    UnreachableValid();
    var seeded := Seed(Unreachable(), 3);
    h := seeded.value.0;
    d := seeded.value.1;
    assert Unreachable().order == [1, 2, 3];
    assert h.nodes[0] == Node(1, Fin(0)) && h.nodes[1] == Node(2, Inf) && h.nodes[2] == Node(3, Inf);
    assert h.nodes == [Node(1, Fin(0)), Node(2, Inf), Node(3, Inf)];
    ThreeKeys(h.locs, 0, 1, 0);
    ThreeKeys(d, Inf, Inf, Fin(0));
  }

  /** A map over exactly the keys 1, 2, 3 is determined by its three entries. */
  lemma ThreeKeys<T>(m: map<Vertex, T>, a: T, b: T, c: T)
    requires m.Keys == {1, 2, 3} && m[1] == a && m[2] == b && m[3] == c
    ensures m == map[1 := a, 2 := b, 3 := c]
  {
    var t := map[1 := a, 2 := b, 3 := c];
    forall k | k in m
      ensures k in t && m[k] == t[k]
    {
    }
    forall k | k in t
      ensures k in m
    {
    }
  }

  /** Extracting vertex 1; the node of vertex 3 moves to the root and stays there. */
  method FirstPass(h: Heap) returns (u: Vertex, h': Heap)
    requires h == Heap([Node(1, Fin(0)), Node(2, Inf), Node(3, Inf)], 3, SeededLocs())
    ensures u == 1 && h' == Heap([Node(3, Inf), Node(2, Inf)], 2, SeededLocs())
  {
    assert Popped(h.nodes) == [Node(3, Inf), Node(2, Inf)];
    assert Smallest(Popped(h.nodes), 0) == 0;
    var ex := ExtractMin(h);
    u := ex.value.0.vert;
    h' := ex.value.1;
    assert h.locs[3 := 0] == SeededLocs();
  }

  /** Extracting vertex 3; vertex 2 moves to slot 0 while vertex 1 keeps its stale slot 0. */
  method SecondPass(h: Heap) returns (u: Vertex, h': Heap)
    requires h == Heap([Node(3, Inf), Node(2, Inf)], 2, SeededLocs())
    ensures u == 3 && h' == Heap([Node(2, Inf)], 1, StaleLocs())
  {
    assert Popped(h.nodes) == [Node(2, Inf)];
    var ex := ExtractMin(h);
    u := ex.value.0.vert;
    h' := ex.value.1;
    assert h.locs[2 := 0] == StaleLocs();
  }

  /** `decreaseKey(1, 1)` writes through vertex 1's stale slot 0 into vertex 2's node. */
  method StaleDecrease(h: Heap) returns (h': Heap)
    requires h == Heap([Node(2, Inf)], 1, StaleLocs())
    ensures h' == Heap([Node(2, Fin(1))], 1, StaleLocs())
  {
    var lowered := DecreaseKey(h, 1, Fin(1));
    h' := lowered.value;
  }

  /** Extracting the last node: vertex 2, at the key meant for vertex 1. */
  method ThirdPass(h: Heap) returns (u: Vertex, h': Heap)
    requires h == Heap([Node(2, Fin(1))], 1, StaleLocs())
    ensures u == 2 && h'.size == 0
  {
    var ex := ExtractMin(h);
    u := ex.value.0.vert;
    h' := ex.value.1;
  }

  /** With the corrected seeding the same start is handled: from vertex 3 the
      distances are {1:1, 2:4, 3:0}. */
  method OtherStartRun() returns (d: map<Vertex, Dist>)
    ensures d == map[1 := Fin(1), 2 := Fin(4), 3 := Fin(0)]
  {
    UnreachableValid();
    var extracted;
    d, extracted := Run(Unreachable(), 3);
    OtherStartUnique(d);
  }

  /** Three vertices inserted at 10, 20, 30; lowering the last to 5 brings it to the
      root, so it is extracted first. */
  method DecreaseKeyScenario() returns (first: Node)
    ensures first == Node(3, Fin(5))
  {
    var h := ThreeInserted();
    ThreeInsertedValid();
    var lowered := DecreaseKey(h, 3, Fin(5));
    var ex := ExtractMin(lowered.value);
    first := ex.value.0;
    assert first in lowered.value.nodes;
  }

  function TwoInserted(): Heap
  {
    Insert(Insert(MinHeap.Empty(), 1, Fin(10)), 2, Fin(20))
  }

  /** The first two insertions, at 10 and 20, give a valid heap. */
  lemma TwoInsertedValid()
    ensures TwoInserted().nodes == [Node(1, Fin(10)), Node(2, Fin(20))]
    ensures MinHeap.Valid(TwoInserted())
  {
    var h := TwoInserted();
    assert h.nodes == [] + [Node(1, Fin(10))] + [Node(2, Fin(20))];
    assert h.nodes == [Node(1, Fin(10)), Node(2, Fin(20))];
    assert h.size == 2 && h.locs[1] == 0 && h.locs[2] == 1;
    assert Parent(1) == 0;
  }

  lemma VertsOfTwo(s: seq<Node>)
    requires s == [Node(1, Fin(10)), Node(2, Fin(20))]
    ensures Verts(s) == {1, 2}
  {
    assert s[0] in s && s[1] in s;
    forall n | n in s
      ensures n.vert == 1 || n.vert == 2
    {
    }
  }

  function ThreeInserted(): Heap
  {
    Insert(TwoInserted(), 3, Fin(30))
  }

  lemma ThreeInsertedValid()
    ensures ThreeInserted().nodes == [Node(1, Fin(10)), Node(2, Fin(20)), Node(3, Fin(30))]
    ensures MinHeap.Valid(ThreeInserted()) && HasSlot(ThreeInserted(), 3)
    ensures ThreeInserted().locs[3] == 2 && 3 in Verts(ThreeInserted().nodes)
  {
    TwoInsertedValid();
    var h2 := TwoInserted();
    VertsOfTwo(h2.nodes);
    InsertValidIff(h2, 3, Fin(30));
    assert Parent(2) == 0;
    var h3 := Insert(h2, 3, Fin(30));
    assert h3.nodes[2] in h3.nodes;
  }

  /** Because `insertHeapNode` does not bubble up, inserting 5, 3, 8, 1, 4 leaves 5 at
      the root, and `extractMin` hands back 5 although 1 is present. */
  method InsertWithoutBubbleUp() returns (first: Node)
    ensures first == Node(1, Fin(5))
  {
    var h := MinHeap.Empty();
    h := Insert(h, 1, Fin(5));
    h := Insert(h, 2, Fin(3));
    h := Insert(h, 3, Fin(8));
    h := Insert(h, 4, Fin(1));
    h := Insert(h, 5, Fin(4));
    assert h.nodes[0] == Node(1, Fin(5));
    assert !Ordered(h.nodes) by {
      assert Parent(1) == 0 && Lt(h.nodes[1].dist, h.nodes[0].dist);
    }
    var ex := ExtractMin(h);
    first := ex.value.0;
  }

  /** Extracting the only node drops `size` to 0 but leaves the node in the array, so
      `isEmpty` still answers false. */
  method ExtractLastNode() returns (h': Heap)
    ensures h'.size == 0 && |h'.nodes| == 1 && !IsEmpty(h')
  {
    var h := Insert(MinHeap.Empty(), 7, Fin(2));
    var ex := ExtractMin(h);
    h' := ex.value.1;
  }
}
