/** The indexed binary min-heap of MinHeap.js: an array of (vertex, distance) nodes,
    a counter `size`, and `locs` (the source's `vertLocs`) mapping each vertex to its slot. */
module MinHeap {
  import opened Types

  datatype Node = Node(vert: Vertex, dist: Dist)

  /** `size` is kept separately from the array length, as in the source: the two
      part ways when the last node is extracted. */
  datatype Heap = Heap(nodes: seq<Node>, size: int, locs: map<Vertex, int>)

  /** `Math.floor((i + 1) / 2) - 1`. */
  function Parent(i: nat): (p: int)
    ensures i == 0 ==> p == -1
    ensures i > 0 ==> 0 <= p < i && (i == Left(p) || i == Right(p))
  {
    (i + 1) / 2 - 1
  }

  function Left(i: nat): nat { 2 * i + 1 }

  function Right(i: nat): nat { 2 * i + 2 }

  lemma ParentOfChildren(k: nat)
    ensures Parent(Left(k)) == k && Parent(Right(k)) == k
  {
  }

  /** The vertices that currently occupy a slot. */
  ghost function Verts(s: seq<Node>): set<Vertex>
  {
    set n | n in s :: n.vert
  }

  /** Every parent's distance is at most its child's. */
  ghost predicate Ordered(s: seq<Node>)
  {
    forall i :: 0 < i < |s| ==> Le(s[Parent(i)].dist, s[i].dist)
  }

  /** Index consistency: every occupied slot is recorded in `locs`. */
  ghost predicate Indexed(s: seq<Node>, locs: map<Vertex, int>)
  {
    forall i :: 0 <= i < |s| ==> s[i].vert in locs && locs[s[i].vert] == i
  }

  ghost predicate Distinct(s: seq<Node>)
  {
    forall i, j :: 0 <= i < |s| && 0 <= j < |s| && i != j ==> s[i].vert != s[j].vert
  }

  ghost predicate Valid(h: Heap)
  {
    |h.nodes| == h.size && Ordered(h.nodes) && Indexed(h.nodes, h.locs)
  }

  /** Ordered except possibly between slot `k` and its parent, and the parent of `k`
      is no greater than the children of `k`: the state bubbling up works on. */
  ghost predicate OrderedExceptUp(s: seq<Node>, k: nat)
  {
    && (forall i :: 0 < i < |s| && i != k ==> Le(s[Parent(i)].dist, s[i].dist))
    && (0 < k < |s| ==>
          forall c :: 0 < c < |s| && Parent(c) == k ==> Le(s[Parent(k)].dist, s[c].dist))
  }

  /** Ordered except possibly between slot `k` and its children, and the parent of
      `k` is no greater than the children of `k`: the state bubbling down works on. */
  ghost predicate OrderedExceptDown(s: seq<Node>, k: nat)
  {
    && (forall i :: 0 < i < |s| && Parent(i) != k ==> Le(s[Parent(i)].dist, s[i].dist))
    && (0 < k < |s| ==>
          forall c :: 0 < c < |s| && Parent(c) == k ==> Le(s[Parent(k)].dist, s[c].dist))
  }

  lemma IndexedDistinct(s: seq<Node>, locs: map<Vertex, int>)
    requires Indexed(s, locs)
    ensures Distinct(s)
  {
  }

  /** The root of an ordered array holds a smallest distance. */
  lemma {:induction false} RootIsMin(s: seq<Node>, i: nat)
    requires Ordered(s) && i < |s|
    ensures Le(s[0].dist, s[i].dist)
    decreases i
  {
    if i > 0 {
      RootIsMin(s, Parent(i));
      LeTrans(s[0].dist, s[Parent(i)].dist, s[i].dist);
    }
  }

  /** The constructor: an empty array, size 0, no slots recorded. */
  function Empty(): (h: Heap)
    ensures Valid(h) && Verts(h.nodes) == {}
  {
    Heap([], 0, map[])
  }

  /** `insertHeapNode`: append the node, record slot `size`, increment `size`.
      It never bubbles up. */
  function Insert(h: Heap, v: Vertex, k: Dist): Heap
  {
    Heap(h.nodes + [Node(v, k)], h.size + 1, h.locs[v := h.size])
  }

  /** Because `Insert` does not bubble up, it keeps a valid heap valid exactly when
      the vertex is new and its key is no smaller than the key of its parent slot. */
  lemma InsertValidIff(h: Heap, v: Vertex, k: Dist)
    requires Valid(h)
    ensures Valid(Insert(h, v, k)) <==>
              v !in Verts(h.nodes) && (|h.nodes| == 0 || Le(h.nodes[Parent(|h.nodes|)].dist, k))
  {
    var r := Insert(h, v, k);
    var n := |h.nodes|;
    assert r.nodes[n] == Node(v, k);
    if Valid(r) {
      forall m | m in h.nodes
        ensures m.vert != v
      {
        var j :| 0 <= j < n && h.nodes[j] == m;
        assert r.nodes[j] == m;
        assert r.locs[r.nodes[j].vert] == j;
      }
    }
    if v !in Verts(h.nodes) && (n == 0 || Le(h.nodes[Parent(n)].dist, k)) {
      forall i | 0 <= i < |r.nodes|
        ensures r.nodes[i].vert in r.locs && r.locs[r.nodes[i].vert] == i
      {
        if i < n {
          assert r.nodes[i] == h.nodes[i];
          assert h.nodes[i] in h.nodes;
        }
      }
      forall i | 0 < i < |r.nodes|
        ensures Le(r.nodes[Parent(i)].dist, r.nodes[i].dist)
      {
        if i < n {
          assert r.nodes[i] == h.nodes[i];
        }
      }
    }
  }

  /** `swap`: exchange slots `i` and `j` and record both moved vertices' new slots. */
  function Swap(h: Heap, i: nat, j: nat): (r: Heap)
    requires i < |h.nodes| && j < |h.nodes|
    ensures |r.nodes| == |h.nodes| && r.size == h.size
    ensures r.nodes[i] == h.nodes[j] && r.nodes[j] == h.nodes[i]
    ensures forall k :: 0 <= k < |h.nodes| && k != i && k != j ==> r.nodes[k] == h.nodes[k]
    ensures multiset(r.nodes) == multiset(h.nodes)
    ensures Indexed(h.nodes, h.locs) ==> Indexed(r.nodes, r.locs)
    ensures r.locs.Keys == h.locs.Keys + {h.nodes[i].vert, h.nodes[j].vert}
    ensures r.locs[h.nodes[i].vert] == j
    ensures h.nodes[i].vert != h.nodes[j].vert ==> r.locs[h.nodes[j].vert] == i
    ensures forall v :: v in h.locs && v != h.nodes[i].vert && v != h.nodes[j].vert ==> r.locs[v] == h.locs[v]
  {
    SwapFacts(h, i, j);
    Heap(h.nodes[i := h.nodes[j]][j := h.nodes[i]], h.size, h.locs[h.nodes[j].vert := i][h.nodes[i].vert := j])
  }

  lemma SwapFacts(h: Heap, i: nat, j: nat)
    requires i < |h.nodes| && j < |h.nodes|
    ensures multiset(h.nodes[i := h.nodes[j]][j := h.nodes[i]]) == multiset(h.nodes)
    ensures Indexed(h.nodes, h.locs) ==>
              Indexed(h.nodes[i := h.nodes[j]][j := h.nodes[i]], h.locs[h.nodes[j].vert := i][h.nodes[i].vert := j])
  {
    var t := h.nodes[i := h.nodes[j]][j := h.nodes[i]];
    var locs := h.locs[h.nodes[j].vert := i][h.nodes[i].vert := j];
    if Indexed(h.nodes, h.locs) {
      forall a | 0 <= a < |t|
        ensures t[a].vert in locs && locs[t[a].vert] == a
      {
        if a != i && a != j {
          assert t[a] == h.nodes[a];
        }
      }
    }
  }

  /** `t` is `s` with slots `i` and `j` exchanged. */
  ghost predicate Exchanged(s: seq<Node>, t: seq<Node>, i: nat, j: nat)
  {
    && |t| == |s| && i < |s| && j < |s|
    && t[i] == s[j] && t[j] == s[i]
    && forall k :: 0 <= k < |s| && k != i && k != j ==> t[k] == s[k]
  }

  /** One step of bubbling up: swapping slot `c` with its larger parent moves the
      single possible violation one level up. */
  lemma SwapUpStep(s: seq<Node>, t: seq<Node>, c: nat)
    requires 0 < c < |s|
    requires OrderedExceptUp(s, c)
    requires Lt(s[c].dist, s[Parent(c)].dist)
    requires Exchanged(s, t, c, Parent(c))
    ensures OrderedExceptUp(t, Parent(c))
  {
    var p := Parent(c);
    forall i | 0 < i < |t| && i != p
      ensures Le(t[Parent(i)].dist, t[i].dist)
    {
      if i == c {
      } else if Parent(i) == c {
        assert t[i] == s[i] && t[c] == s[p];
        assert Le(s[p].dist, s[i].dist);
      } else if Parent(i) == p {
        assert t[i] == s[i] && t[p] == s[c];
        assert Le(s[p].dist, s[i].dist);
        LeTrans(s[c].dist, s[p].dist, s[i].dist);
      } else {
        assert t[i] == s[i] && t[Parent(i)] == s[Parent(i)];
        assert Le(s[Parent(i)].dist, s[i].dist);
      }
    }
    if 0 < p {
      forall i | 0 < i < |t| && Parent(i) == p
        ensures Le(t[Parent(p)].dist, t[i].dist)
      {
        assert t[Parent(p)] == s[Parent(p)];
        assert Le(s[Parent(p)].dist, s[p].dist);
        if i != c {
          assert t[i] == s[i];
          assert Le(s[p].dist, s[i].dist);
          LeTrans(s[Parent(p)].dist, s[p].dist, s[i].dist);
        }
      }
    }
  }

  /** `bubbleUp`: swap the node at `index` with its parent while the parent's
      distance is strictly greater. */
  method BubbleUp(h: Heap, index: nat) returns (r: Heap)
    requires index < |h.nodes|
    ensures |r.nodes| == |h.nodes| && r.size == h.size
    ensures multiset(r.nodes) == multiset(h.nodes)
    ensures Indexed(h.nodes, h.locs) ==> Indexed(r.nodes, r.locs)
    ensures OrderedExceptUp(h.nodes, index) ==> Ordered(r.nodes)
    ensures forall v :: v in h.locs && v !in Verts(h.nodes) ==> v in r.locs && r.locs[v] == h.locs[v]
    ensures index == 0 ==> r == h
  {
    r := h;
    var cur: nat := index;
    var parent := Parent(cur);
    while cur > 0 && Lt(r.nodes[cur].dist, r.nodes[parent].dist)
      invariant cur < |r.nodes| == |h.nodes| && r.size == h.size
      invariant parent == Parent(cur)
      invariant index == 0 ==> cur == 0 && r == h
      invariant multiset(r.nodes) == multiset(h.nodes)
      invariant Indexed(h.nodes, h.locs) ==> Indexed(r.nodes, r.locs)
      invariant OrderedExceptUp(h.nodes, index) ==> OrderedExceptUp(r.nodes, cur)
      invariant forall v :: v in h.locs && v !in Verts(h.nodes) ==> v in r.locs && r.locs[v] == h.locs[v]
      decreases cur
    {
      if OrderedExceptUp(h.nodes, index) {
        SwapUpStep(r.nodes, Swap(r, cur, parent).nodes, cur);
      }
      assert r.nodes[cur] in multiset(h.nodes) && r.nodes[parent] in multiset(h.nodes);
      r := Swap(r, cur, parent);
      cur := parent;
      parent := Parent(cur);
    }
  }

  /** The slot holding the smallest of the node at `k` and its children, as chosen by
      lines 64-74: a child wins only when strictly smaller, and the right child only
      when strictly smaller than the left, so ties go to the left child. */
  function Smallest(s: seq<Node>, k: nat): (m: nat)
    requires k < |s|
    ensures m < |s| && (m == k || m == Left(k) || m == Right(k))
    ensures Le(s[m].dist, s[k].dist)
    ensures Left(k) < |s| ==> Le(s[m].dist, s[Left(k)].dist)
    ensures Right(k) < |s| ==> Le(s[m].dist, s[Right(k)].dist)
    ensures m != k ==> Lt(s[m].dist, s[k].dist)
    ensures m == Right(k) ==> Lt(s[m].dist, s[Left(k)].dist)
  {
    var m0 := if Left(k) < |s| && Lt(s[Left(k)].dist, s[k].dist) then Left(k) else k;
    if Right(k) < |s| && Lt(s[Right(k)].dist, s[m0].dist) then Right(k) else m0
  }

  /** One step of bubbling down: swapping slot `k` with its smallest child moves the
      single possible violation one level down. */
  lemma SwapDownStep(h: Heap, k: nat)
    requires k < |h.nodes|
    requires OrderedExceptDown(h.nodes, k)
    requires Smallest(h.nodes, k) != k
    ensures OrderedExceptDown(Swap(h, k, Smallest(h.nodes, k)).nodes, Smallest(h.nodes, k))
  {
    var s := h.nodes;
    var m := Smallest(s, k);
    var t := Swap(h, k, m).nodes;
    ParentOfChildren(k);
    assert Parent(m) == k;
    forall i | 0 < i < |t| && Parent(i) != m
      ensures Le(t[Parent(i)].dist, t[i].dist)
    {
      if i == m {
      } else if Parent(i) == k {
        assert t[i] == s[i];
        assert i == Left(k) || i == Right(k);
      } else if i == k {
        assert t[Parent(k)] == s[Parent(k)];
      } else {
        assert t[i] == s[i];
      }
    }
    forall c | 0 < c < |t| && Parent(c) == m
      ensures Le(t[Parent(m)].dist, t[c].dist)
    {
      assert t[c] == s[c];
    }
  }

  /** When no child of `k` is strictly smaller, the one possible violation is absent. */
  lemma SettledDown(s: seq<Node>, k: nat)
    requires k < |s| && OrderedExceptDown(s, k) && Smallest(s, k) == k
    ensures Ordered(s)
  {
    ParentOfChildren(k);
    forall i | 0 < i < |s|
      ensures Le(s[Parent(i)].dist, s[i].dist)
    {
      if Parent(i) == k {
        assert i == Left(k) || i == Right(k);
      }
    }
  }

  /** `bubbleDown`: while a child is strictly smaller, swap with the smallest child. */
  method BubbleDown(h: Heap, index: nat) returns (r: Heap)
    requires index < |h.nodes|
    ensures |r.nodes| == |h.nodes| && r.size == h.size
    ensures multiset(r.nodes) == multiset(h.nodes)
    ensures Indexed(h.nodes, h.locs) ==> Indexed(r.nodes, r.locs)
    ensures OrderedExceptDown(h.nodes, index) ==> Ordered(r.nodes)
    ensures forall v :: v in h.locs && v !in Verts(h.nodes) ==> v in r.locs && r.locs[v] == h.locs[v]
    ensures Smallest(h.nodes, index) == index ==> r == h
  {
    r := h;
    var idx: nat := index;
    var length := |r.nodes|;
    var swapping := true;
    while swapping
      invariant idx < |r.nodes| == length == |h.nodes| && r.size == h.size
      invariant multiset(r.nodes) == multiset(h.nodes)
      invariant Indexed(h.nodes, h.locs) ==> Indexed(r.nodes, r.locs)
      invariant OrderedExceptDown(h.nodes, index) ==> OrderedExceptDown(r.nodes, idx)
      invariant OrderedExceptDown(h.nodes, index) && !swapping ==> Ordered(r.nodes)
      invariant forall v :: v in h.locs && v !in Verts(h.nodes) ==> v in r.locs && r.locs[v] == h.locs[v]
      invariant Smallest(h.nodes, index) == index ==> r == h && idx == index
      decreases length - idx + (if swapping then 1 else 0)
    {
      swapping := false;
      var m := Smallest(r.nodes, idx);
      if m != idx {
        if OrderedExceptDown(h.nodes, index) {
          SwapDownStep(r, idx);
        }
        assert r.nodes[idx] in multiset(h.nodes) && r.nodes[m] in multiset(h.nodes);
        r := Swap(r, idx, m);
        idx := m;
        swapping := true;
      } else if OrderedExceptDown(h.nodes, index) {
        SettledDown(r.nodes, idx);
      }
    }
  }

  /** `extractMin`: take the root, move the popped last node into slot 0, bubble it
      down, decrement `size`. On a one-node array the popped node is written back,
      so the array keeps length 1 while `size` drops. */
  method ExtractMin(h: Heap) returns (r: Result<(Node, Heap)>)
    ensures r.Err? <==> |h.nodes| == 0
    ensures r.Ok? ==> r.value.0 == h.nodes[0] && r.value.1.size == h.size - 1
    ensures |h.nodes| == 1 ==> r.Ok? && r.value.1.nodes == h.nodes
    ensures |h.nodes| >= 2 ==>
              r.Ok? && |r.value.1.nodes| == |h.nodes| - 1
              && multiset(r.value.1.nodes) + multiset{h.nodes[0]} == multiset(h.nodes)
    ensures Valid(h) && |h.nodes| >= 1 ==>
              r.Ok? && (forall n :: n in h.nodes ==> Le(r.value.0.dist, n.dist))
              && r.value.0.vert in r.value.1.locs && r.value.1.locs[r.value.0.vert] == 0
    ensures Valid(h) && |h.nodes| >= 2 ==>
              r.Ok? && Valid(r.value.1)
              && (forall n :: n in r.value.1.nodes <==> n in h.nodes && n != h.nodes[0])
              && Verts(r.value.1.nodes) == Verts(h.nodes) - {h.nodes[0].vert}
    ensures |h.nodes| >= 2 && Smallest(Popped(h.nodes), 0) == 0 ==>
              r == Ok((h.nodes[0], Heap(Popped(h.nodes), h.size - 1, h.locs[h.nodes[|h.nodes| - 1].vert := 0])))
  {
    if |h.nodes| == 0 {
      return Err(EmptyHeap);
    }
    var min := h.nodes[0];
    var last := h.nodes[|h.nodes| - 1];
    var rest := h.nodes[..|h.nodes| - 1];
    // Writing slot 0 of the emptied array re-grows it to length 1.
    var nodes := if |rest| == 0 then [last] else rest[0 := last];
    var locs := h.locs[last.vert := 0];
    var moved := BubbleDown(Heap(nodes, h.size, locs), 0);
    r := Ok((min, moved.(size := moved.size - 1)));
    ExtractFacts(h, nodes, locs, moved);
  }

  /** The array after `pop` and the write of the popped node into slot 0, for two or
      more nodes. */
  function Popped(s: seq<Node>): (t: seq<Node>)
    requires |s| >= 2
    ensures |t| == |s| - 1 && t[0] == s[|s| - 1]
    ensures forall k :: 0 < k < |t| ==> t[k] == s[k]
  {
    s[..|s| - 1][0 := s[|s| - 1]]
  }

  /** What `ExtractMin` establishes, stated over the node array it bubbles down. */
  lemma ExtractFacts(h: Heap, nodes: seq<Node>, locs: map<Vertex, int>, moved: Heap)
    requires |h.nodes| >= 1
    requires nodes == if |h.nodes| == 1 then h.nodes else h.nodes[..|h.nodes| - 1][0 := h.nodes[|h.nodes| - 1]]
    requires locs == h.locs[h.nodes[|h.nodes| - 1].vert := 0]
    requires |moved.nodes| == |nodes| && moved.size == h.size
    requires multiset(moved.nodes) == multiset(nodes)
    requires Indexed(nodes, locs) ==> Indexed(moved.nodes, moved.locs)
    requires OrderedExceptDown(nodes, 0) ==> Ordered(moved.nodes)
    requires forall v :: v in locs && v !in Verts(nodes) ==> v in moved.locs && moved.locs[v] == locs[v]
    ensures |h.nodes| == 1 ==> moved.nodes == h.nodes
    ensures |h.nodes| >= 2 ==> multiset(moved.nodes) + multiset{h.nodes[0]} == multiset(h.nodes)
    ensures Valid(h) ==>
              (forall n :: n in h.nodes ==> Le(h.nodes[0].dist, n.dist))
              && h.nodes[0].vert in moved.locs && moved.locs[h.nodes[0].vert] == 0
    ensures Valid(h) && |h.nodes| >= 2 ==>
              Valid(moved.(size := moved.size - 1))
              && (forall n :: n in moved.nodes <==> n in h.nodes && n != h.nodes[0])
              && Verts(moved.nodes) == Verts(h.nodes) - {h.nodes[0].vert}
  {
    if |h.nodes| == 1 {
      assert h.nodes == [h.nodes[|h.nodes| - 1]];
      ExtractSingle(h, moved);
    } else {
      PopToRootMultiset(h.nodes);
    }
    if Valid(h) {
      forall n | n in h.nodes
        ensures Le(h.nodes[0].dist, n.dist)
      {
        var i :| 0 <= i < |h.nodes| && h.nodes[i] == n;
        RootIsMin(h.nodes, i);
      }
      if |h.nodes| >= 2 {
        ExtractValid(h, nodes, locs, moved);
      }
    }
  }

  /** With one node, the popped node is written back into slot 0 and stays put. */
  lemma ExtractSingle(h: Heap, moved: Heap)
    requires |h.nodes| == 1
    requires |moved.nodes| == 1
    requires multiset(moved.nodes) == multiset(h.nodes)
    requires Indexed(h.nodes, h.locs[h.nodes[0].vert := 0]) ==> Indexed(moved.nodes, moved.locs)
    ensures moved.nodes == h.nodes
    ensures h.nodes[0].vert in moved.locs && moved.locs[h.nodes[0].vert] == 0
  {
    assert moved.nodes[0] in multiset(h.nodes);
    assert moved.nodes == [moved.nodes[0]] && h.nodes == [h.nodes[0]];
  }

  /** Popping the last node into the root removes exactly the old root. */
  lemma PopToRootMultiset(s: seq<Node>)
    requires |s| >= 2
    ensures multiset(s[..|s| - 1][0 := s[|s| - 1]]) + multiset{s[0]} == multiset(s)
  {
    var rest := s[..|s| - 1];
    assert s == rest + [s[|s| - 1]];
    assert rest[0] == s[0];
  }

  /** The facts about a valid heap of two or more nodes after the last node has been
      moved to the root and bubbled down. */
  lemma ExtractValid(h: Heap, nodes: seq<Node>, locs: map<Vertex, int>, moved: Heap)
    requires Valid(h) && |h.nodes| >= 2
    requires nodes == h.nodes[..|h.nodes| - 1][0 := h.nodes[|h.nodes| - 1]]
    requires locs == h.locs[h.nodes[|h.nodes| - 1].vert := 0]
    requires |moved.nodes| == |nodes| && moved.size == h.size
    requires multiset(moved.nodes) == multiset(nodes)
    requires Indexed(nodes, locs) ==> Indexed(moved.nodes, moved.locs)
    requires OrderedExceptDown(nodes, 0) ==> Ordered(moved.nodes)
    requires forall v :: v in locs && v !in Verts(nodes) ==> v in moved.locs && moved.locs[v] == locs[v]
    ensures Valid(moved.(size := moved.size - 1))
    ensures forall n :: n in moved.nodes <==> n in h.nodes && n != h.nodes[0]
    ensures Verts(moved.nodes) == Verts(h.nodes) - {h.nodes[0].vert}
    ensures h.nodes[0].vert in moved.locs && moved.locs[h.nodes[0].vert] == 0
  {
    var s := h.nodes;
    var n := |s|;
    IndexedDistinct(s, h.locs);
    forall i | 0 <= i < |nodes|
      ensures nodes[i].vert in locs && locs[nodes[i].vert] == i
    {
      if i > 0 {
        assert nodes[i] == s[i];
        assert s[i].vert != s[n - 1].vert;
      }
    }
    forall i | 0 < i < |nodes| && Parent(i) != 0
      ensures Le(nodes[Parent(i)].dist, nodes[i].dist)
    {
      assert nodes[i] == s[i] && nodes[Parent(i)] == s[Parent(i)];
    }
    assert OrderedExceptDown(nodes, 0);
    forall m
      ensures m in moved.nodes <==> m in s && m != s[0]
    {
      calc {
        m in moved.nodes;
        m in multiset(moved.nodes);
        m in multiset(nodes);
        m in nodes;
      }
      if m in nodes {
        var i :| 0 <= i < |nodes| && nodes[i] == m;
        if i == 0 {
          assert m == s[n - 1];
        } else {
          assert m == s[i];
        }
      }
      if m in s && m != s[0] {
        var i :| 0 <= i < n && s[i] == m;
        if i == n - 1 {
          assert nodes[0] == m;
        } else {
          assert nodes[i] == m;
        }
      }
    }
    forall v
      ensures v in Verts(moved.nodes) <==> v in Verts(s) - {s[0].vert}
    {
      if v in Verts(moved.nodes) {
        var m :| m in moved.nodes && m.vert == v;
        var i :| 0 <= i < n && s[i] == m;
      }
      if v in Verts(s) - {s[0].vert} {
        var m :| m in s && m.vert == v;
        assert m in moved.nodes;
      }
    }
    assert s[0].vert != s[n - 1].vert;
    assert s[0].vert !in Verts(nodes);
    assert s[0].vert in h.locs;
  }

  /** The slot `decreaseKey` would write for `v`, when the lookup succeeds. */
  predicate HasSlot(h: Heap, v: Vertex)
  {
    v in h.locs && 0 <= h.locs[v] < |h.nodes|
  }

  /** `decreaseKey`: look up `v`'s slot, overwrite that node's distance with `k`, bubble
      up. The key is not checked to be a decrease, and a stale slot rewrites whichever
      node now sits there. A missing or out-of-range slot is the source's TypeError. */
  method DecreaseKey(h: Heap, v: Vertex, k: Dist) returns (r: Result<Heap>)
    ensures r.Err? <==> !HasSlot(h, v)
    ensures r.Ok? ==>
              |r.value.nodes| == |h.nodes| && r.value.size == h.size
              && multiset(r.value.nodes) + multiset{h.nodes[h.locs[v]]}
                 == multiset(h.nodes) + multiset{Node(h.nodes[h.locs[v]].vert, k)}
    ensures Valid(h) && v in Verts(h.nodes) && HasSlot(h, v) && Le(k, h.nodes[h.locs[v]].dist) ==>
              r.Ok? && Valid(r.value)
              && (forall n :: n in r.value.nodes <==> n == Node(v, k) || (n in h.nodes && n.vert != v))
              && Verts(r.value.nodes) == Verts(h.nodes)
    ensures HasSlot(h, v) && h.locs[v] == 0 ==>
              r == Ok(h.(nodes := h.nodes[0 := Node(h.nodes[0].vert, k)]))
  {
    if !HasSlot(h, v) {
      return Err(UnknownVertex);
    }
    var i := h.locs[v];
    var updated := h.(nodes := h.nodes[i := h.nodes[i].(dist := k)]);
    var moved := BubbleUp(updated, i);
    r := Ok(moved);
    if Valid(h) && v in Verts(h.nodes) && Le(k, h.nodes[i].dist) {
      DecreaseValid(h, v, k, updated, moved);
    }
  }

  lemma DecreaseValid(h: Heap, v: Vertex, k: Dist, updated: Heap, moved: Heap)
    requires Valid(h) && v in Verts(h.nodes) && HasSlot(h, v)
    requires Le(k, h.nodes[h.locs[v]].dist)
    requires updated == h.(nodes := h.nodes[h.locs[v] := h.nodes[h.locs[v]].(dist := k)])
    requires |moved.nodes| == |updated.nodes| && moved.size == updated.size
    requires multiset(moved.nodes) == multiset(updated.nodes)
    requires Indexed(updated.nodes, updated.locs) ==> Indexed(moved.nodes, moved.locs)
    requires OrderedExceptUp(updated.nodes, h.locs[v]) ==> Ordered(moved.nodes)
    ensures Valid(moved)
    ensures forall n :: n in moved.nodes <==> n == Node(v, k) || (n in h.nodes && n.vert != v)
    ensures Verts(moved.nodes) == Verts(h.nodes)
  {
    DecreaseSlot(h, v);
    DecreaseOrder(h, v, k, updated);
    DecreaseMembers(h, v, k, updated.nodes, moved.nodes);
  }

  /** In a consistent heap, the recorded slot of a present vertex holds that vertex. */
  lemma DecreaseSlot(h: Heap, v: Vertex)
    requires Valid(h) && v in Verts(h.nodes) && HasSlot(h, v)
    ensures h.nodes[h.locs[v]].vert == v
  {
    var j :| j in h.nodes && j.vert == v;
    var jj :| 0 <= jj < |h.nodes| && h.nodes[jj] == j;
  }

  /** Lowering the key in place leaves the index consistent and the order broken at
      most between that slot and its parent. */
  lemma DecreaseOrder(h: Heap, v: Vertex, k: Dist, updated: Heap)
    requires Valid(h) && HasSlot(h, v) && h.nodes[h.locs[v]].vert == v
    requires Le(k, h.nodes[h.locs[v]].dist)
    requires updated == h.(nodes := h.nodes[h.locs[v] := h.nodes[h.locs[v]].(dist := k)])
    ensures Indexed(updated.nodes, updated.locs)
    ensures OrderedExceptUp(updated.nodes, h.locs[v])
  {
    var s := h.nodes;
    var i := h.locs[v];
    var t := updated.nodes;
    forall a | 0 <= a < |t|
      ensures t[a].vert in updated.locs && updated.locs[t[a].vert] == a
    {
      if a != i {
        assert t[a] == s[a];
      }
    }
    forall a | 0 < a < |t| && a != i
      ensures Le(t[Parent(a)].dist, t[a].dist)
    {
      assert t[a] == s[a];
      if Parent(a) == i {
        LeTrans(k, s[i].dist, s[a].dist);
      }
    }
    if 0 < i {
      forall c | 0 < c < |t| && Parent(c) == i
        ensures Le(t[Parent(i)].dist, t[c].dist)
      {
        assert t[c] == s[c];
        LeTrans(s[Parent(i)].dist, s[i].dist, s[c].dist);
      }
    }
  }

  /** The nodes after the decrease are the old ones with `v`'s node re-keyed. */
  lemma DecreaseMembers(h: Heap, v: Vertex, k: Dist, t: seq<Node>, m: seq<Node>)
    requires Valid(h) && HasSlot(h, v) && h.nodes[h.locs[v]].vert == v
    requires t == h.nodes[h.locs[v] := h.nodes[h.locs[v]].(dist := k)]
    requires multiset(m) == multiset(t)
    ensures forall n :: n in m <==> n == Node(v, k) || (n in h.nodes && n.vert != v)
    ensures Verts(m) == Verts(h.nodes)
  {
    var s := h.nodes;
    var i := h.locs[v];
    IndexedDistinct(s, h.locs);
    forall n
      ensures n in m <==> n == Node(v, k) || (n in s && n.vert != v)
    {
      calc {
        n in m;
        n in multiset(m);
        n in multiset(t);
        n in t;
      }
      if n in t {
        var a :| 0 <= a < |t| && t[a] == n;
        if a != i {
          assert n == s[a];
        }
      }
      if n in s && n.vert != v {
        var a :| 0 <= a < |s| && s[a] == n;
        assert t[a] == n;
      }
    }
    forall u
      ensures u in Verts(m) <==> u in Verts(s)
    {
      if u in Verts(m) {
        var n :| n in m && n.vert == u;
      }
      if u in Verts(s) {
        var n :| n in s && n.vert == u;
        if u == v {
          assert Node(v, k) in m;
        } else {
          assert n in m;
        }
      }
    }
  }

  /** `isEmpty` looks at the array length, not at `size`; on a valid heap the two
      agree. */
  function IsEmpty(h: Heap): (b: bool)
    ensures b <==> h.nodes == []
    ensures Valid(h) ==> (b <==> h.size == 0)
  {
    |h.nodes| < 1
  }
}
