/** `Dijkstra.dijkstras` of dijkstras.js up to the result printing: seed the heap with
    every vertex at infinity, put the source at distance 0, then repeatedly extract
    the nearest vertex and relax its out-edges with `DecreaseKey`. */
module Dijkstra {
  import opened Types
  import opened MinHeap
  import opened Graphs

  /** The vertices still waiting in the heap. Once the last node has been extracted
      `size` is 0 although the array keeps that node, so none are live. */
  ghost function Live(h: Heap): set<Vertex>
  {
    if h.size > 0 then Verts(h.nodes) else {}
  }

  /** Every node in the array carries its vertex's entry of `d`. */
  ghost predicate Agrees(s: seq<Node>, d: map<Vertex, Dist>)
  {
    forall n :: n in s ==> n.vert in d && n.dist == d[n.vert]
  }

  /** The state the loop keeps between extractions. `done` is the set of vertices
      extracted so far and `paths` a walk witnessing each finite distance. */
  ghost predicate Frontier(g: Graph, start: Vertex, h: Heap, d: map<Vertex, Dist>,
                           done: set<Vertex>, paths: map<Vertex, Path>)
  {
    && Graphs.Valid(g)
    && h.size >= 0
    && (h.size > 0 ==> MinHeap.Valid(h) && Agrees(h.nodes, d))
    && d.Keys == g.adj.Keys
    && Live(h) !! done && Live(h) + done == g.adj.Keys
    && (forall x, y :: x in done && y in Live(h) ==> Le(d[x], d[y]))
    && start in d && d[start] == Fin(0)
    && (forall v :: v in d && d[v].Fin? ==>
          v in paths && IsPath(g, start, v, paths[v]) && Len(paths[v]) == d[v].n)
  }

  /** No out-edge of an extracted vertex can improve a distance. */
  ghost predicate Settled(g: Graph, d: map<Vertex, Dist>, done: set<Vertex>)
  {
    forall x, e :: x in done && x in g.adj && e in g.adj[x] ==>
      x in d && e.target in d && Le(d[e.target], Plus(d[x], e.w))
  }

  /** The vertices of `s` have entries in `d` that never decrease along `s`. */
  predicate Ascending(s: seq<Vertex>, d: map<Vertex, Dist>)
  {
    forall i, j :: 0 <= i < j < |s| ==> s[i] in d && s[j] in d && Le(d[s[i]], d[s[j]])
  }

  /** Lines 46-49: insert every vertex at `MAX` in insertion order (never bubbling up)
      and record `MAX` in `dists`. All keys are equal, so the heap is valid. */
  method SeedAll(g: Graph) returns (h: Heap, d: map<Vertex, Dist>)
    requires Graphs.Valid(g)
    ensures |h.nodes| == h.size == |g.order|
    ensures forall j :: 0 <= j < |g.order| ==> h.nodes[j] == Node(g.order[j], Inf)
    ensures forall j :: 0 <= j < |g.order| ==> g.order[j] in h.locs && h.locs[g.order[j]] == j
    ensures MinHeap.Valid(h) && Verts(h.nodes) == g.adj.Keys && h.locs.Keys == g.adj.Keys
    ensures d.Keys == g.adj.Keys && forall v :: v in d ==> d[v] == Inf
  {
    h := MinHeap.Empty();
    d := map[];
    for i := 0 to |g.order|
      invariant |h.nodes| == h.size == i
      invariant forall j :: 0 <= j < i ==> h.nodes[j] == Node(g.order[j], Inf)
      invariant forall j :: 0 <= j < i ==> g.order[j] in h.locs && h.locs[g.order[j]] == j
      invariant forall v :: v in d <==> v in g.order[..i]
      invariant forall v :: v in h.locs <==> v in g.order[..i]
      invariant forall v :: v in d ==> d[v] == Inf
    {
      h := Insert(h, g.order[i], Inf);
      d := d[g.order[i] := Inf];
    }
    assert g.order[..|g.order|] == g.order;
    forall v
      ensures v in d <==> v in g.adj
    {
    }
    forall v
      ensures v in h.locs <==> v in g.adj
    {
    }
    forall v
      ensures v in Verts(h.nodes) <==> v in g.adj
    {
      if v in g.adj {
        var j :| 0 <= j < |g.order| && g.order[j] == v;
        assert h.nodes[j].vert == v;
      }
    }
    forall i | 0 < i < |h.nodes|
      ensures Le(h.nodes[Parent(i)].dist, h.nodes[i].dist)
    {
    }
  }

  /** Lines 46-54 as written: seed every vertex at `MAX`, then force slot 0 to 0 and
      record `start` at slot 0. An empty graph has no slot 0 and fails. The resulting
      heap is consistent with `dists` exactly when `start` is the first vertex
      inserted; otherwise the first vertex sits at the root with distance 0. */
  method Seed(g: Graph, start: Vertex) returns (r: Result<(Heap, map<Vertex, Dist>)>)
    requires Graphs.Valid(g)
    ensures r.Err? <==> |g.order| == 0
    ensures r.Ok? ==>
              |r.value.0.nodes| == r.value.0.size == |g.order|
              && (forall j :: 0 <= j < |g.order| ==>
                    r.value.0.nodes[j] == Node(g.order[j], if j == 0 then Fin(0) else Inf))
              && Verts(r.value.0.nodes) == g.adj.Keys
              && r.value.1.Keys == g.adj.Keys + {start} && r.value.1[start] == Fin(0)
              && (forall v :: v in g.adj && v != start ==> r.value.1[v] == Inf)
    ensures r.Ok? ==>
              (MinHeap.Valid(r.value.0) && Agrees(r.value.0.nodes, r.value.1) <==> start == g.order[0])
    ensures r.Ok? ==>
              r.value.0.locs.Keys == g.adj.Keys + {start} && r.value.0.locs[start] == 0
              && forall j :: 0 <= j < |g.order| && g.order[j] != start ==> r.value.0.locs[g.order[j]] == j
  {
    var h, d := SeedAll(g);
    if |g.order| == 0 {
      return Err(EmptyHeap);
    }
    var seeded := h.(nodes := h.nodes[0 := h.nodes[0].(dist := Fin(0))], locs := h.locs[start := 0]);
    d := d[start := Fin(0)];
    r := Ok((seeded, d));
    SeedFacts(g, start, h, seeded, d);
  }

  lemma SeedFacts(g: Graph, start: Vertex, h: Heap, seeded: Heap, d: map<Vertex, Dist>)
    requires Graphs.Valid(g) && |g.order| > 0
    requires |h.nodes| == h.size == |g.order|
    requires forall j :: 0 <= j < |g.order| ==> h.nodes[j] == Node(g.order[j], Inf)
    requires forall j :: 0 <= j < |g.order| ==> g.order[j] in h.locs && h.locs[g.order[j]] == j
    requires seeded == h.(nodes := h.nodes[0 := h.nodes[0].(dist := Fin(0))], locs := h.locs[start := 0])
    requires d.Keys == g.adj.Keys + {start} && d[start] == Fin(0)
    requires forall v :: v in g.adj && v != start ==> d[v] == Inf
    ensures forall j :: 0 <= j < |g.order| ==>
              seeded.nodes[j] == Node(g.order[j], if j == 0 then Fin(0) else Inf)
    ensures Verts(seeded.nodes) == g.adj.Keys
    ensures MinHeap.Valid(seeded) && Agrees(seeded.nodes, d) <==> start == g.order[0]
  {
    var s := seeded.nodes;
    forall v
      ensures v in Verts(s) <==> v in g.adj
    {
      if v in g.adj {
        var j :| 0 <= j < |g.order| && g.order[j] == v;
        assert s[j].vert == v;
      }
    }
    if start == g.order[0] {
      SeedOrdered(g, h, seeded);
      SeedAgrees(g, start, h, seeded, d);
    } else {
      assert s[0].vert == g.order[0] && s[0].dist == Fin(0);
      assert d[g.order[0]] == Inf;
      assert s[0] in s;
    }
  }

  /** Zero at the root and infinity below it is heap-ordered, and the slots recorded
      for the first vertex are unchanged when it is the source. */
  lemma SeedOrdered(g: Graph, h: Heap, seeded: Heap)
    requires |g.order| > 0 && |h.nodes| == h.size == |g.order|
    requires forall j :: 0 <= j < |g.order| ==> h.nodes[j] == Node(g.order[j], Inf)
    requires forall j :: 0 <= j < |g.order| ==> g.order[j] in h.locs && h.locs[g.order[j]] == j
    requires seeded == h.(nodes := h.nodes[0 := h.nodes[0].(dist := Fin(0))],
                          locs := h.locs[g.order[0] := 0])
    ensures MinHeap.Valid(seeded)
  {
    var s := seeded.nodes;
    forall i | 0 < i < |s|
      ensures Le(s[Parent(i)].dist, s[i].dist)
    {
      assert s[i].dist == Inf;
    }
    forall i | 0 <= i < |s|
      ensures s[i].vert in seeded.locs && seeded.locs[s[i].vert] == i
    {
      assert s[i].vert == g.order[i];
    }
  }

  /** With the source first, each seeded node carries its vertex's distance. */
  lemma SeedAgrees(g: Graph, start: Vertex, h: Heap, seeded: Heap, d: map<Vertex, Dist>)
    requires Graphs.Valid(g) && |g.order| > 0 && start == g.order[0]
    requires |h.nodes| == h.size == |g.order|
    requires forall j :: 0 <= j < |g.order| ==> h.nodes[j] == Node(g.order[j], Inf)
    requires seeded.nodes == h.nodes[0 := h.nodes[0].(dist := Fin(0))]
    requires d.Keys == g.adj.Keys + {start} && d[start] == Fin(0)
    requires forall v :: v in g.adj && v != start ==> d[v] == Inf
    ensures Agrees(seeded.nodes, d)
  {
    var s := seeded.nodes;
    forall n | n in s
      ensures n.vert in d && n.dist == d[n.vert]
    {
      var j :| 0 <= j < |s| && s[j] == n;
      if j > 0 {
        assert g.order[j] != g.order[0];
      }
    }
  }

  /** Lines 46-54 with the root initialisation replaced by `decreaseKey(start, 0)`:
      the source's own node moves to the root, whichever slot it was inserted at. A
      `start` that is not a vertex has no slot, which the lookup reports. When `start`
      is the first vertex this builds exactly the heap `Seed` builds. */
  method SeedFixed(g: Graph, start: Vertex) returns (r: Result<(Heap, map<Vertex, Dist>)>)
    requires Graphs.Valid(g)
    ensures r.Err? <==> start !in g.adj
    ensures r.Ok? ==>
              |r.value.0.nodes| == r.value.0.size == |g.order|
              && MinHeap.Valid(r.value.0) && Agrees(r.value.0.nodes, r.value.1)
              && Verts(r.value.0.nodes) == g.adj.Keys
              && r.value.1.Keys == g.adj.Keys && r.value.1[start] == Fin(0)
              && (forall v :: v in g.adj && v != start ==> r.value.1[v] == Inf)
    ensures r.Ok? && start == g.order[0] ==>
              forall j :: 0 <= j < |g.order| ==>
                r.value.0.nodes[j] == Node(g.order[j], if j == 0 then Fin(0) else Inf)
  {
    var h, all := SeedAll(g);
    if start in g.adj {
      var j :| 0 <= j < |g.order| && g.order[j] == start;
      assert HasSlot(h, start) && h.locs[start] == j;
    }
    var lowered := DecreaseKey(h, start, Fin(0));
    if lowered.Err? {
      return Err(lowered.error);
    }
    var d := all[start := Fin(0)];
    forall v | v in g.adj && v != start
      ensures d[v] == Inf
    {
      assert d[v] == all[v];
    }
    assert d.Keys == g.adj.Keys;
    r := Ok((lowered.value, d));
    forall n | n in lowered.value.nodes
      ensures n.vert in d && n.dist == d[n.vert]
    {
      if n.vert != start {
        assert n in h.nodes;
      }
    }
  }

  /** Lines 68-74 for one edge `u -> e.target`: when `dists[u] + w` is strictly below
      the target's distance, record it and decrease the target's key. Because every
      extracted vertex is no farther than `u`, only a vertex still in the heap can pass
      that test, so the key really decreases and no stale slot is ever used. */
  method RelaxEdge(g: Graph, start: Vertex, h: Heap, d: map<Vertex, Dist>, u: Vertex, e: Edge,
                   ghost done: set<Vertex>, ghost paths: map<Vertex, Path>)
    returns (h': Heap, d': map<Vertex, Dist>, ghost paths': map<Vertex, Path>)
    requires Frontier(g, start, h, d, done, paths)
    requires u in done && u in g.adj && e in g.adj[u]
    requires forall x :: x in done ==> Le(d[x], d[u])
    ensures Frontier(g, start, h', d', done, paths')
    ensures h'.size == h.size && Live(h') == Live(h)
    ensures Le(d'[e.target], Plus(d'[u], e.w))
    ensures d' == d
            || (e.target in Live(h) && Lt(Plus(d[u], e.w), d[e.target])
                && d' == d[e.target := Plus(d[u], e.w)])
    ensures forall v :: v in d ==> v in d' && Le(d'[v], d[v])
    ensures forall x :: x in done ==> d'[x] == d[x]
  {
    var t := e.target;
    var cand := Plus(d[u], e.w);
    if Lt(cand, d[t]) {
      forall x | x in done
        ensures Le(d[x], cand)
      {
        PlusGrows(d[u], e.w);
        LeTrans(d[x], d[u], cand);
      }
      assert t in Live(h);
      d' := d[t := cand];
      var res := DecreaseKey(h, t, cand);
      h' := res.value;
      paths' := paths[t := paths[u] + [Hop(u, e)]];
      RelaxFacts(g, start, h, d, u, e, done, paths, h', d', paths');
    } else {
      h', d', paths' := h, d, paths;
    }
  }

  lemma RelaxFacts(g: Graph, start: Vertex, h: Heap, d: map<Vertex, Dist>, u: Vertex, e: Edge,
                   done: set<Vertex>, paths: map<Vertex, Path>,
                   h': Heap, d': map<Vertex, Dist>, paths': map<Vertex, Path>)
    requires Frontier(g, start, h, d, done, paths)
    requires u in done && u in g.adj && e in g.adj[u]
    requires forall x :: x in done ==> Le(d[x], Plus(d[u], e.w))
    requires e.target in Live(h) && Lt(Plus(d[u], e.w), d[e.target])
    requires d' == d[e.target := Plus(d[u], e.w)]
    requires paths' == paths[e.target := paths[u] + [Hop(u, e)]]
    requires h'.size == h.size && MinHeap.Valid(h')
    requires forall n :: n in h'.nodes <==> n == Node(e.target, Plus(d[u], e.w)) || (n in h.nodes && n.vert != e.target)
    requires Verts(h'.nodes) == Verts(h.nodes)
    ensures Frontier(g, start, h', d', done, paths')
  {
    var t := e.target;
    var cand := Plus(d[u], e.w);
    assert Live(h') == Live(h);
    forall n | n in h'.nodes
      ensures n.vert in d' && n.dist == d'[n.vert]
    {
    }
    assert d[u].Fin?;
    ExtendPath(g, start, u, paths[u], e);
    forall x, y | x in done && y in Live(h')
      ensures Le(d'[x], d'[y])
    {
    }
  }

  /** The inner loop, lines 66-77: relax every out-edge of the vertex `u` just
      extracted, head of the list first. Afterwards no out-edge of any extracted vertex
      can improve a distance, distances only went down, and extracted vertices kept
      theirs. The source's `explored` guard reads a property of a `Set` object, which
      is always undefined, so it never skips an edge and is not modelled. */
  method RelaxEdges(g: Graph, start: Vertex, h: Heap, d: map<Vertex, Dist>, u: Vertex,
                    ghost done: set<Vertex>, ghost paths: map<Vertex, Path>)
    returns (h': Heap, d': map<Vertex, Dist>, ghost paths': map<Vertex, Path>)
    requires Frontier(g, start, h, d, done, paths)
    requires u in done && u in g.adj
    requires forall x :: x in done ==> Le(d[x], d[u])
    requires Settled(g, d, done - {u})
    ensures Frontier(g, start, h', d', done, paths')
    ensures Settled(g, d', done)
    ensures h'.size == h.size && Live(h') == Live(h)
    ensures forall v :: v in d ==> v in d' && Le(d'[v], d[v])
    ensures forall x :: x in done ==> d'[x] == d[x]
  {
    var edges := g.adj[u];
    h', d', paths' := h, d, paths;
    for i := 0 to |edges|
      invariant Frontier(g, start, h', d', done, paths')
      invariant h'.size == h.size && Live(h') == Live(h)
      invariant forall v :: v in d ==> v in d' && Le(d'[v], d[v])
      invariant forall x :: x in done ==> d'[x] == d[x]
      invariant forall j :: 0 <= j < i ==>
                  edges[j].target in d' && Le(d'[edges[j].target], Plus(d'[u], edges[j].w))
    {
      ghost var prev := d';
      h', d', paths' := RelaxEdge(g, start, h', d', u, edges[i], done, paths');
      RelaxEdgesStep(d, prev, d', u, edges, i);
    }
    SettledAfter(g, d, d', done, u);
  }

  lemma RelaxEdgesStep(d: map<Vertex, Dist>, prev: map<Vertex, Dist>, d': map<Vertex, Dist>,
                       u: Vertex, edges: seq<Edge>, i: nat)
    requires i < |edges| && u in d && u in prev && u in d' && prev[u] == d'[u]
    requires forall v :: v in d ==> v in prev && Le(prev[v], d[v])
    requires forall v :: v in prev ==> v in d' && Le(d'[v], prev[v])
    requires forall j :: 0 <= j < i ==>
               edges[j].target in prev && Le(prev[edges[j].target], Plus(prev[u], edges[j].w))
    requires edges[i].target in d' && Le(d'[edges[i].target], Plus(d'[u], edges[i].w))
    ensures forall v :: v in d ==> v in d' && Le(d'[v], d[v])
    ensures forall j :: 0 <= j < i + 1 ==>
              edges[j].target in d' && Le(d'[edges[j].target], Plus(d'[u], edges[j].w))
  {
    forall j | 0 <= j < i
      ensures Le(d'[edges[j].target], Plus(d'[u], edges[j].w))
    {
      LeTrans(d'[edges[j].target], prev[edges[j].target], Plus(prev[u], edges[j].w));
    }
    forall v | v in d
      ensures Le(d'[v], d[v])
    {
      LeTrans(d'[v], prev[v], d[v]);
    }
  }

  /** Relaxing every out-edge of `u` extends the settled set by `u`. */
  lemma SettledAfter(g: Graph, d: map<Vertex, Dist>, d': map<Vertex, Dist>, done: set<Vertex>, u: Vertex)
    requires u in done && u in g.adj && done <= g.adj.Keys && d'.Keys == d.Keys == g.adj.Keys
    requires Settled(g, d, done - {u})
    requires forall v :: v in d ==> Le(d'[v], d[v])
    requires forall x :: x in done ==> d'[x] == d[x]
    requires forall j :: 0 <= j < |g.adj[u]| ==>
               g.adj[u][j].target in d' && Le(d'[g.adj[u][j].target], Plus(d'[u], g.adj[u][j].w))
    ensures Settled(g, d', done)
  {
    forall x, e | x in done && x in g.adj && e in g.adj[x]
      ensures x in d' && e.target in d' && Le(d'[e.target], Plus(d'[x], e.w))
    {
      if x != u {
        LeTrans(d'[e.target], d[e.target], Plus(d[x], e.w));
      } else {
        var j :| 0 <= j < |g.adj[u]| && g.adj[u][j] == e;
      }
    }
  }

  /** Lines 37-78 with the corrected seeding of `SeedFixed`, which for a `start` that is
      the first vertex is the seeding as written. It returns the final `dists` and the
      vertices in the order `extractMin` produced them. Every vertex is extracted
      exactly once, in non-decreasing order of distance, and the final distances are the
      shortest walk weights from `start`: `Inf` exactly for the vertices no walk reaches. */
  method Run(g: Graph, start: Vertex) returns (d: map<Vertex, Dist>, extracted: seq<Vertex>)
    requires Graphs.Valid(g) && start in g.adj
    ensures d.Keys == g.adj.Keys
    ensures Attained(g, start, d) && Optimal(g, start, d)
    ensures forall v :: v in d ==> (d[v] == Inf <==> !exists p :: IsPath(g, start, v, p))
    ensures |extracted| == |g.order|
    ensures forall v :: v in g.adj <==> v in extracted
    ensures forall i, j :: 0 <= i < j < |extracted| ==> extracted[i] != extracted[j]
    ensures Ascending(extracted, d)
  {
    var seeded := SeedFixed(g, start);
    var h := seeded.value.0;
    d := seeded.value.1;
    extracted := [];
    ghost var done: set<Vertex> := {};
    ghost var paths: map<Vertex, Path> := map[start := []];
    SeedFrontier(g, start, h, d);
    while h.size > 0
      invariant LoopInv(g, start, h, d, done, paths, extracted)
      decreases h.size
    {
      h, d, extracted, done, paths := Step(g, start, h, d, extracted, done, paths);
    }
    assert done == g.adj.Keys;
    FeasibleOptimal(g, start, d);
    forall v | v in d
      ensures d[v] == Inf <==> !exists p :: IsPath(g, start, v, p)
    {
      InfIffUnreachable(g, start, d, v);
    }
  }

  /** Two runs on the same graph from the same source produce the same distances: the
      heap and maps are built fresh on every call, and shortest distances are unique.
      (The extraction order may differ between vertices at equal distance.) */
  method RunTwice(g: Graph, start: Vertex) returns (d1: map<Vertex, Dist>, d2: map<Vertex, Dist>)
    requires Graphs.Valid(g) && start in g.adj
    ensures d1 == d2
  {
    var order1, order2;
    d1, order1 := Run(g, start);
    d2, order2 := Run(g, start);
    ShortestUnique(g, start, d1, d2);
  }

  /** What holds before and after every iteration of the outer loop. */
  ghost predicate LoopInv(g: Graph, start: Vertex, h: Heap, d: map<Vertex, Dist>,
                          done: set<Vertex>, paths: map<Vertex, Path>, extracted: seq<Vertex>)
  {
    && Frontier(g, start, h, d, done, paths)
    && Settled(g, d, done)
    && |extracted| + h.size == |g.order|
    && (forall v :: v in done <==> v in extracted)
    && (forall i, j :: 0 <= i < j < |extracted| ==> extracted[i] != extracted[j])
    && Ascending(extracted, d)
  }

  /** One iteration of the outer loop, lines 59-77: extract the nearest vertex and
      relax its out-edges. The heap shrinks by one and the loop state is kept. */
  method Step(g: Graph, start: Vertex, h: Heap, d: map<Vertex, Dist>, extracted: seq<Vertex>,
              ghost done: set<Vertex>, ghost paths: map<Vertex, Path>)
    returns (h': Heap, d': map<Vertex, Dist>, extracted': seq<Vertex>,
             ghost done': set<Vertex>, ghost paths': map<Vertex, Path>)
    requires LoopInv(g, start, h, d, done, paths, extracted) && h.size > 0
    ensures LoopInv(g, start, h', d', done', paths', extracted')
    ensures h'.size == h.size - 1
    ensures |extracted'| == |extracted| + 1 && extracted'[..|extracted|] == extracted
    ensures extracted'[|extracted|] in Live(h) && Live(h') == Live(h) - {extracted'[|extracted|]}
    ensures forall v :: v in d ==> v in d' && Le(d'[v], d[v])
    ensures forall x :: x in done' ==> x in d && d'[x] == d[x]
  {
    var u, rest := ExtractNearest(g, start, h, d, done, paths);
    assert (done + {u}) - {u} == done;
    done' := done + {u};
    extracted' := extracted + [u];
    h', d', paths' := RelaxEdges(g, start, rest, d, u, done', paths);
    ExtractionOrder(extracted, u, d, d', done');
    assert extracted'[..|extracted|] == extracted;
  }

  /** Line 60: extract the root. Its vertex is one not yet extracted and no nearer
      than any extracted vertex, and the loop state holds with it moved to `done`. */
  method ExtractNearest(g: Graph, start: Vertex, h: Heap, d: map<Vertex, Dist>,
                        ghost done: set<Vertex>, ghost paths: map<Vertex, Path>)
    returns (u: Vertex, rest: Heap)
    requires Frontier(g, start, h, d, done, paths) && h.size > 0
    ensures u in g.adj && u !in done && u in Live(h)
    ensures rest.size == h.size - 1 && Live(rest) == Live(h) - {u}
    ensures Frontier(g, start, rest, d, done + {u}, paths)
    ensures forall x :: x in done + {u} ==> Le(d[x], d[u])
  {
    var ex := ExtractMin(h);
    u := ex.value.0.vert;
    rest := ex.value.1;
    ExtractStep(g, start, h, d, done, paths, ex.value.0, rest);
  }

  /** The seeded state, with nothing extracted yet, is a state the loop can start from. */
  lemma SeedFrontier(g: Graph, start: Vertex, h: Heap, d: map<Vertex, Dist>)
    requires Graphs.Valid(g) && start in g.adj
    requires |h.nodes| == h.size == |g.order| && Verts(h.nodes) == g.adj.Keys
    requires d.Keys == g.adj.Keys && d[start] == Fin(0)
    requires forall v :: v in g.adj && v != start ==> d[v] == Inf
    requires MinHeap.Valid(h) && Agrees(h.nodes, d)
    ensures Frontier(g, start, h, d, {}, map[start := []])
    ensures Settled(g, d, {})
  {
    assert start in g.adj;
    forall v | v in d && d[v].Fin?
      ensures v == start
    {
    }
    assert IsPath(g, start, start, []);
  }

  /** Appending the newly extracted vertex keeps the extraction sequence free of
      repeats and sorted by final distance. */
  lemma ExtractionOrder(prefix: seq<Vertex>, u: Vertex, before: map<Vertex, Dist>,
                        d: map<Vertex, Dist>, done: set<Vertex>)
    requires u in done && u !in prefix
    requires forall v :: v in done <==> v in prefix || v == u
    requires forall i, j :: 0 <= i < j < |prefix| ==> prefix[i] != prefix[j]
    requires forall i, j :: 0 <= i < j < |prefix| ==>
               prefix[i] in before && prefix[j] in before && Le(before[prefix[i]], before[prefix[j]])
    requires u in before && forall x :: x in done ==> x in before && Le(before[x], before[u])
    requires forall x :: x in done ==> x in d && d[x] == before[x]
    ensures forall v :: v in done <==> v in prefix + [u]
    ensures forall i, j :: 0 <= i < j < |prefix + [u]| ==> (prefix + [u])[i] != (prefix + [u])[j]
    ensures forall i, j :: 0 <= i < j < |prefix + [u]| ==>
              (prefix + [u])[i] in d && (prefix + [u])[j] in d
              && Le(d[(prefix + [u])[i]], d[(prefix + [u])[j]])
  {
    var s := prefix + [u];
    forall i | 0 <= i < |s|
      ensures s[i] in done
    {
      if i < |prefix| {
        assert s[i] == prefix[i];
      }
    }
  }

  /** Extracting the root of a consistent heap moves its vertex from the heap to the
      extracted set without disturbing the loop's state; that vertex is the farthest
      extracted so far. */
  lemma ExtractStep(g: Graph, start: Vertex, h: Heap, d: map<Vertex, Dist>,
                    done: set<Vertex>, paths: map<Vertex, Path>, m: Node, h2: Heap)
    requires Frontier(g, start, h, d, done, paths) && h.size > 0
    requires m == h.nodes[0] && h2.size == h.size - 1
    requires forall n :: n in h.nodes ==> Le(m.dist, n.dist)
    requires |h.nodes| >= 2 ==>
               MinHeap.Valid(h2)
               && (forall n :: n in h2.nodes <==> n in h.nodes && n != m)
               && Verts(h2.nodes) == Verts(h.nodes) - {m.vert}
    ensures m.vert in g.adj && m.vert !in done
    ensures m.vert in Live(h) && Live(h2) == Live(h) - {m.vert}
    ensures Frontier(g, start, h2, d, done + {m.vert}, paths)
    ensures forall x :: x in done + {m.vert} ==> Le(d[x], d[m.vert])
  {
    var u := m.vert;
    assert m in h.nodes;
    assert u in Live(h);
    if |h.nodes| == 1 {
      assert h.nodes == [m];
      assert Verts(h.nodes) == {u};
      assert Live(h2) == {};
    } else {
      assert Live(h2) == Live(h) - {u};
      forall n | n in h2.nodes
        ensures n.vert in d && n.dist == d[n.vert]
      {
      }
    }
    forall x, y | x in done + {u} && y in Live(h2)
      ensures Le(d[x], d[y])
    {
      var n :| n in h2.nodes && n.vert == y;
      assert n in h.nodes;
      if x != u {
        LeTrans(d[x], d[u], d[y]);
      }
    }
  }
}
