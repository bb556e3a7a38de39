/**
 The depth-bounded traces of trace/tracker.py. `trace_forward` and `trace_backward` are the
 same breadth-first search over the two indexes, so they are one method with a direction.
 */
module TraceTracker {
  import opened Common
  import opened Dicts
  import opened TraceGraph
  import opened TraceStore

  datatype Direction = Forward | Backward

  function AdjacencyOf(ix: Index, dir: Direction): Adjacency {
    if dir.Forward? then ix.fwd else ix.bwd
  }

  predicate Joins(e: TraceEdge, dir: Direction, u: NodeId, v: NodeId) {
    if dir.Forward? then e.sourceId == u && e.targetId == v else e.targetId == u && e.sourceId == v
  }

  /** `next((e for e in all_edges if ...), None)` */
  function FirstEdge(edges: seq<TraceEdge>, dir: Direction, u: NodeId, v: NodeId): Option<TraceEdge> {
    if edges == [] then None
    else if Joins(edges[0], dir, u, v) then Some(edges[0])
    else FirstEdge(edges[1..], dir, u, v)
  }

  function FirstWithArtifact(nodes: seq<TraceNode>, artifactId: string): (r: Option<TraceNode>)
    ensures r.Some? ==> r.value in nodes && r.value.artifactId == artifactId
    ensures r.None? ==> forall n <- nodes :: n.artifactId != artifactId
  {
    if nodes == [] then None
    else if nodes[0].artifactId == artifactId then Some(nodes[0])
    else FirstWithArtifact(nodes[1..], artifactId)
  }

  /** It is the first one that carries the artifact. */
  lemma {:induction false} ArtifactIsFirst(nodes: seq<TraceNode>, artifactId: string)
    requires FirstWithArtifact(nodes, artifactId).Some?
    ensures exists i :: 0 <= i < |nodes| && FirstWithArtifact(nodes, artifactId) == Some(nodes[i])
                        && forall j :: 0 <= j < i ==> nodes[j].artifactId != artifactId
  {
    if nodes[0].artifactId != artifactId {
      ArtifactIsFirst(nodes[1..], artifactId);
      var i :| 0 <= i < |nodes| - 1 && FirstWithArtifact(nodes[1..], artifactId) == Some(nodes[1..][i])
               && forall j :: 0 <= j < i ==> nodes[1..][j].artifactId != artifactId;
      assert forall j :: 1 <= j < |nodes| ==> nodes[j] == nodes[1..][j - 1];
      assert FirstWithArtifact(nodes, artifactId) == Some(nodes[i + 1]);
    }
  }

  // ----- breadth-first order

  /** The level sets up to some bound, as a table. */
  ghost predicate IsLevels(adj: Adjacency, nodes: set<NodeId>, s: NodeId, levels: seq<set<NodeId>>) {
    && levels != [] && levels[0] == {s}
    && forall d, e :: 0 <= d && d + 1 == e < |levels| ==> levels[e] == levels[d] + Successors(adj, nodes, levels[d])
  }

  ghost function Levels(adj: Adjacency, nodes: set<NodeId>, s: NodeId, k: nat): (levels: seq<set<NodeId>>)
    ensures |levels| == k + 1 && levels[k] == Within(adj, nodes, s, k)
    ensures IsLevels(adj, nodes, s, levels)
    ensures forall d :: 0 <= d <= k ==> levels[d] == Within(adj, nodes, s, d)
  {
    if k == 0 then [{s}]
    else
      var front := Levels(adj, nodes, s, k - 1);
      front + [front[k - 1] + Successors(adj, nodes, front[k - 1])]
  }

  lemma {:induction false} LevelsGrow(adj: Adjacency, nodes: set<NodeId>, s: NodeId, levels: seq<set<NodeId>>,
                                      d: nat, e: nat)
    requires IsLevels(adj, nodes, s, levels) && d <= e < |levels|
    ensures levels[d] <= levels[e]
    decreases e
  {
    if d < e {
      LevelsGrow(adj, nodes, s, levels, d, e - 1);
    }
  }

  /** An entry of the search: a node and the depth at which it was found. */
  datatype Item = Item(id: NodeId, depth: nat)

  predicate Seen(order: seq<Item>, v: NodeId) {
    exists x <- order :: x.id == v
  }

  /** The shortest walk to the node has the length given. */
  ghost predicate AtDistance(levels: seq<set<NodeId>>, x: Item) {
    x.depth < |levels| && x.id in levels[x.depth] && (x.depth > 0 ==> x.id !in levels[x.depth - 1])
  }

  ghost predicate ByDepth(order: seq<Item>) {
    forall i, j :: 0 <= i < j < |order| ==> order[i].depth <= order[j].depth
  }

  ghost predicate EachOnce(order: seq<Item>) {
    forall i, j :: 0 <= i < j < |order| ==> order[i].id != order[j].id
  }

  /** Stored nodes, each once, in order of their distance. */
  ghost predicate Layered(levels: seq<set<NodeId>>, nodes: set<NodeId>, order: seq<Item>) {
    && (forall x <- order :: x.id in nodes && AtDistance(levels, x))
    && ByDepth(order) && EachOnce(order)
  }

  ghost predicate AllSeen(us: set<NodeId>, order: seq<Item>) {
    forall u {:trigger u in us} :: u in us ==> Seen(order, u)
  }

  /** All stored neighbours of a node have been seen. */
  ghost predicate HandedOn(adj: Adjacency, nodes: set<NodeId>, order: seq<Item>, u: NodeId) {
    forall v <- Neighbors(adj, u) :: v in nodes ==> Seen(order, v)
  }

  /** The nodes before position h that are closer than the bound have been expanded. */
  ghost predicate Expanded(adj: Adjacency, nodes: set<NodeId>, k: nat, order: seq<Item>, h: nat) {
    forall i :: 0 <= i < h && i < |order| && order[i].depth < k ==> HandedOn(adj, nodes, order, order[i].id)
  }

  /** When position h is next, everything as close as it has been seen, and nothing seen is
      more than one edge farther. */
  ghost predicate Frontier(levels: seq<set<NodeId>>, order: seq<Item>, h: nat) {
    h < |order| ==>
      var d := order[h].depth;
      d < |levels| && AllSeen(levels[d], order) && forall x <- order :: x.depth <= d + 1
  }

  ghost predicate BfsInv(adj: Adjacency, nodes: set<NodeId>, s: NodeId, levels: seq<set<NodeId>>,
                         order: seq<Item>, h: nat) {
    && Layered(levels, nodes, order) && Seen(order, s) && h <= |order|
    && Expanded(adj, nodes, |levels| - 1, order, h)
    && Frontier(levels, order, h)
  }

  lemma DepthBound(adj: Adjacency, nodes: set<NodeId>, s: NodeId, levels: seq<set<NodeId>>, x: Item, d: nat)
    requires IsLevels(adj, nodes, s, levels) && AtDistance(levels, x) && d < |levels|
    ensures x.id in levels[d] <==> x.depth <= d
  {
    Nested(adj, nodes, s, levels, x.depth, d);
    Nested(adj, nodes, s, levels, d, x.depth - 1);
  }

  lemma Nested(adj: Adjacency, nodes: set<NodeId>, s: NodeId, levels: seq<set<NodeId>>, d: int, e: int)
    ensures IsLevels(adj, nodes, s, levels) && 0 <= d <= e < |levels| ==> levels[d] <= levels[e]
  {
    if IsLevels(adj, nodes, s, levels) && 0 <= d <= e < |levels| {
      LevelsGrow(adj, nodes, s, levels, d, e);
    }
  }

  /** If all of a level has been seen and expanded, the next level has been seen. */
  lemma NextLevel(adj: Adjacency, nodes: set<NodeId>, s: NodeId, levels: seq<set<NodeId>>, order: seq<Item>, d: nat)
    requires IsLevels(adj, nodes, s, levels) && d + 1 < |levels|
    requires forall x <- order :: AtDistance(levels, x)
    requires AllSeen(levels[d], order)
    requires forall x <- order :: x.depth <= d ==> HandedOn(adj, nodes, order, x.id)
    ensures AllSeen(levels[d + 1], order)
  {
    forall v | v in levels[d + 1]
      ensures Seen(order, v)
    {
      if v !in levels[d] {
        var u :| u in levels[d] && Link(adj, nodes, u, v);
        var x :| x in order && x.id == u;
        DepthBound(adj, nodes, s, levels, x, d);
      }
    }
  }

  // ----- one step of the search

  function Visit(nodes: set<NodeId>, order: seq<Item>, v: NodeId, d: nat): seq<Item> {
    if v in nodes && !Seen(order, v) then order + [Item(v, d + 1)] else order
  }

  function VisitAll(nodes: set<NodeId>, order: seq<Item>, vs: seq<NodeId>, d: nat): seq<Item> {
    if vs == [] then order
    else Visit(nodes, VisitAll(nodes, order, vs[..|vs| - 1], d), vs[|vs| - 1], d)
  }

  /** What visiting the neighbours of the node at position h adds: new nodes, one edge
      farther than that node. */
  ghost predicate Grows(levels: seq<set<NodeId>>, nodes: set<NodeId>, order: seq<Item>, order': seq<Item>, d: nat) {
    && order <= order' && EachOnce(order')
    && forall i :: |order| <= i < |order'| ==>
        order'[i].id in nodes && order'[i].depth == d + 1 && AtDistance(levels, order'[i])
  }

  lemma {:induction false} VisitGrows(adj: Adjacency, nodes: set<NodeId>, s: NodeId, levels: seq<set<NodeId>>,
                                      order: seq<Item>, u: NodeId, d: nat, vs: seq<NodeId>)
    requires IsLevels(adj, nodes, s, levels) && d + 1 < |levels|
    requires u in levels[d] && AllSeen(levels[d], order) && EachOnce(order)
    requires forall v <- vs :: v in Neighbors(adj, u)
    ensures Grows(levels, nodes, order, VisitAll(nodes, order, vs, d), d)
    ensures forall v <- vs :: v in nodes ==> Seen(VisitAll(nodes, order, vs, d), v)
  {
    if vs != [] {
      var front, v := vs[..|vs| - 1], vs[|vs| - 1];
      VisitGrows(adj, nodes, s, levels, order, u, d, front);
      var mid := VisitAll(nodes, order, front, d);
      VisitOne(adj, nodes, levels, order, mid, u, d, v);
      assert forall w <- vs :: w in front || w == v;
    }
  }

  lemma SeenMono(order: seq<Item>, order': seq<Item>, v: NodeId)
    requires order <= order' && Seen(order, v)
    ensures Seen(order', v)
  {
    var x :| x in order && x.id == v;
    assert x in order';
  }

  lemma EachOnceSnoc(order: seq<Item>, x: Item)
    requires EachOnce(order) && !Seen(order, x.id)
    ensures EachOnce(order + [x])
  {
    assert forall i :: 0 <= i < |order| ==> order[i] in order;
  }

  lemma GrowsSnoc(levels: seq<set<NodeId>>, nodes: set<NodeId>, order: seq<Item>, mid: seq<Item>, d: nat, x: Item)
    requires Grows(levels, nodes, order, mid, d)
    requires x.id in nodes && x.depth == d + 1 && AtDistance(levels, x) && !Seen(mid, x.id)
    ensures Grows(levels, nodes, order, mid + [x], d)
  {
    EachOnceSnoc(mid, x);
    var order' := mid + [x];
    assert forall i :: |order| <= i < |order'| ==> if i < |mid| then order'[i] == mid[i] else order'[i] == x;
  }

  lemma VisitOne(adj: Adjacency, nodes: set<NodeId>, levels: seq<set<NodeId>>,
                 order: seq<Item>, mid: seq<Item>, u: NodeId, d: nat, v: NodeId)
    requires d + 1 < |levels| && levels[d + 1] == levels[d] + Successors(adj, nodes, levels[d])
    requires u in levels[d] && AllSeen(levels[d], order) && v in Neighbors(adj, u)
    requires Grows(levels, nodes, order, mid, d)
    ensures Grows(levels, nodes, order, Visit(nodes, mid, v, d), d)
    ensures mid <= Visit(nodes, mid, v, d) && (v in nodes ==> Seen(Visit(nodes, mid, v, d), v))
  {
    if v in nodes && !Seen(mid, v) {
      var x := Item(v, d + 1);
      if v in levels[d] {
        SeenMono(order, mid, v);
      }
      assert Link(adj, nodes, u, v);
      GrowsSnoc(levels, nodes, order, mid, d, x);
      assert x in mid + [x];
    }
  }

  /** Expanding the node at position h. */
  function ExpandAt(adj: Adjacency, nodes: set<NodeId>, order: seq<Item>, h: nat): seq<Item>
    requires h < |order|
  {
    VisitAll(nodes, order, Neighbors(adj, order[h].id), order[h].depth)
  }

  lemma ExpandKeepsOrder(adj: Adjacency, nodes: set<NodeId>, s: NodeId, levels: seq<set<NodeId>>,
                         order: seq<Item>, h: nat)
    requires IsLevels(adj, nodes, s, levels) && BfsInv(adj, nodes, s, levels, order, h)
    requires h < |order| && order[h].depth + 1 < |levels|
    ensures Grows(levels, nodes, order, ExpandAt(adj, nodes, order, h), order[h].depth)
    ensures HandedOn(adj, nodes, ExpandAt(adj, nodes, order, h), order[h].id)
  {
    assert order[h] in order;
    VisitGrows(adj, nodes, s, levels, order, order[h].id, order[h].depth, Neighbors(adj, order[h].id));
  }

  lemma LayeredGrows(levels: seq<set<NodeId>>, nodes: set<NodeId>, order: seq<Item>, order': seq<Item>, d: nat)
    requires Layered(levels, nodes, order) && Grows(levels, nodes, order, order', d)
    requires forall x <- order :: x.depth <= d + 1
    ensures Layered(levels, nodes, order')
    ensures forall x <- order' :: x.depth <= d + 1
  {
    assert forall i :: 0 <= i < |order| ==> order'[i] == order[i] && order[i] in order;
  }

  lemma ExpandedGrows(adj: Adjacency, nodes: set<NodeId>, k: nat, order: seq<Item>, order': seq<Item>, h: nat)
    requires Expanded(adj, nodes, k, order, h) && order <= order' && h < |order|
    requires order[h].depth < k ==> HandedOn(adj, nodes, order', order[h].id)
    ensures Expanded(adj, nodes, k, order', h + 1)
  {
    forall i | 0 <= i < h && order'[i].depth < k
      ensures HandedOn(adj, nodes, order', order'[i].id)
    {
      assert HandedOn(adj, nodes, order, order[i].id);
      forall v | v in Neighbors(adj, order[i].id) && v in nodes
        ensures Seen(order', v)
      {
        SeenMono(order, order', v);
      }
    }
  }

  lemma CloserAreExpanded(adj: Adjacency, nodes: set<NodeId>, k: nat, order: seq<Item>, h: nat, d: nat)
    requires ByDepth(order) && Expanded(adj, nodes, k, order, h) && d < k
    requires h < |order| ==> order[h].depth > d
    ensures forall x <- order :: x.depth <= d ==> HandedOn(adj, nodes, order, x.id)
  {
    forall x | x in order && x.depth <= d
      ensures HandedOn(adj, nodes, order, x.id)
    {
      var i :| 0 <= i < |order| && order[i] == x;
      assert i > h ==> order[h].depth <= order[i].depth;
    }
  }

  /** Everything at the depth of the next node has been seen. */
  lemma NextFrontier(adj: Adjacency, nodes: set<NodeId>, s: NodeId, levels: seq<set<NodeId>>, order: seq<Item>,
                     h: nat, d: nat)
    requires IsLevels(adj, nodes, s, levels) && Layered(levels, nodes, order)
    requires h < |order| && order[h].depth == d < |levels| && AllSeen(levels[d], order)
    requires forall x <- order :: x.depth <= d + 1
    requires Expanded(adj, nodes, |levels| - 1, order, h + 1)
    ensures Frontier(levels, order, h + 1)
  {
    if h + 1 < |order| {
      var x := order[h + 1];
      assert x in order && AtDistance(levels, x) && order[h].depth <= x.depth;
      if x.depth == d + 1 {
        CloserAreExpanded(adj, nodes, |levels| - 1, order, h + 1, d);
        NextLevel(adj, nodes, s, levels, order, d);
      }
    }
  }

  function Turn(adj: Adjacency, nodes: set<NodeId>, order: seq<Item>, h: nat, k: nat): seq<Item> {
    if h < |order| && order[h].depth < k then ExpandAt(adj, nodes, order, h) else order
  }

  /** One turn of the outer loop keeps the invariant, whether or not the depth bound stops
      it from expanding the node. */
  lemma TurnKeepsInv(adj: Adjacency, nodes: set<NodeId>, s: NodeId, levels: seq<set<NodeId>>, order: seq<Item>,
                     h: nat, order': seq<Item>)
    requires IsLevels(adj, nodes, s, levels) && BfsInv(adj, nodes, s, levels, order, h) && h < |order|
    requires order' == Turn(adj, nodes, order, h, |levels| - 1)
    ensures BfsInv(adj, nodes, s, levels, order', h + 1) && order <= order'
  {
    var d := order[h].depth;
    if d < |levels| - 1 {
      ExpandKeepsOrder(adj, nodes, s, levels, order, h);
      LayeredGrows(levels, nodes, order, order', d);
    }
    SeenMono(order, order', s);
    ExpandedGrows(adj, nodes, |levels| - 1, order, order', h);
    forall u | u in levels[d]
      ensures Seen(order', u)
    {
      SeenMono(order, order', u);
    }
    NextFrontier(adj, nodes, s, levels, order', h, d);
  }

  lemma {:induction false} SeenWithin(adj: Adjacency, nodes: set<NodeId>, s: NodeId, levels: seq<set<NodeId>>,
                                      order: seq<Item>, d: nat)
    requires IsLevels(adj, nodes, s, levels) && d < |levels|
    requires BfsInv(adj, nodes, s, levels, order, |order|)
    ensures AllSeen(levels[d], order)
  {
    if d > 0 {
      SeenWithin(adj, nodes, s, levels, order, d - 1);
      CloserAreExpanded(adj, nodes, |levels| - 1, order, |order|, d - 1);
      NextLevel(adj, nodes, s, levels, order, d - 1);
    }
  }

  /** When the queue is empty, exactly the nodes within the bound have been seen. */
  lemma SearchIsExact(adj: Adjacency, nodes: set<NodeId>, s: NodeId, levels: seq<set<NodeId>>, order: seq<Item>)
    requires IsLevels(adj, nodes, s, levels) && BfsInv(adj, nodes, s, levels, order, |order|)
    ensures forall v :: Seen(order, v) <==> v in levels[|levels| - 1]
    ensures forall x <- order :: x.depth < |levels| - 1 <==> |levels| > 1 && x.id in levels[|levels| - 2]
  {
    SeenWithin(adj, nodes, s, levels, order, |levels| - 1);
    forall x | x in order
      ensures x.id in levels[|levels| - 1]
      ensures x.depth < |levels| - 1 <==> |levels| > 1 && x.id in levels[|levels| - 2]
    {
      DepthBound(adj, nodes, s, levels, x, |levels| - 1);
      if |levels| > 1 {
        DepthBound(adj, nodes, s, levels, x, |levels| - 2);
      }
    }
  }

  lemma SearchStarts(adj: Adjacency, nodes: set<NodeId>, s: NodeId, levels: seq<set<NodeId>>)
    requires IsLevels(adj, nodes, s, levels) && s in nodes
    ensures BfsInv(adj, nodes, s, levels, [Item(s, 0)], 0)
  {
    assert Item(s, 0) in [Item(s, 0)];
  }

  // ----- the edges of a trace

  function AddNew(edges: seq<TraceEdge>, edge: Option<TraceEdge>): seq<TraceEdge> {
    if edge.Some? && edge.value !in edges then edges + [edge.value] else edges
  }

  /** The edges collected while expanding u. */
  function Collect(all: seq<TraceEdge>, dir: Direction, u: NodeId, vs: seq<NodeId>,
                   edges: seq<TraceEdge>): seq<TraceEdge> {
    if vs == [] then edges
    else AddNew(Collect(all, dir, u, vs[..|vs| - 1], edges), FirstEdge(all, dir, u, vs[|vs| - 1]))
  }

  ghost predicate CrossedFrom(all: seq<TraceEdge>, dir: Direction, u: NodeId, vs: seq<NodeId>, e: TraceEdge) {
    exists v <- vs :: FirstEdge(all, dir, u, v) == Some(e)
  }

  lemma {:induction false} CollectIsCrossed(all: seq<TraceEdge>, dir: Direction, u: NodeId, vs: seq<NodeId>,
                                            edges: seq<TraceEdge>)
    requires Distinct(edges)
    ensures Distinct(Collect(all, dir, u, vs, edges))
    ensures forall e :: e in Collect(all, dir, u, vs, edges) <==> e in edges || CrossedFrom(all, dir, u, vs, e)
  {
    if vs != [] {
      var front, v := vs[..|vs| - 1], vs[|vs| - 1];
      CollectIsCrossed(all, dir, u, front, edges);
      assert vs == front + [v];
      forall e
        ensures CrossedFrom(all, dir, u, vs, e) <==>
                  CrossedFrom(all, dir, u, front, e) || FirstEdge(all, dir, u, v) == Some(e)
      {
        assert v in vs && forall w <- front :: w in vs;
      }
    }
  }

  /** The edges collected while expanding the first h nodes. */
  function CollectAll(ix: Index, dir: Direction, order: seq<Item>, h: nat, k: nat): seq<TraceEdge>
    requires ix.Wf() && h <= |order|
  {
    if h == 0 then []
    else
      var before := CollectAll(ix, dir, order, h - 1, k);
      var x := order[h - 1];
      if x.depth >= k then before
      else Collect(ix.edges.Values(), dir, x.id, Neighbors(AdjacencyOf(ix, dir), x.id), before)
  }

  lemma {:induction false} CollectAllPrefix(ix: Index, dir: Direction, order: seq<Item>, order': seq<Item>,
                                            h: nat, k: nat)
    requires ix.Wf() && h <= |order| && order <= order'
    ensures CollectAll(ix, dir, order, h, k) == CollectAll(ix, dir, order', h, k)
  {
    if h > 0 {
      CollectAllPrefix(ix, dir, order, order', h - 1, k);
    }
  }

  /** An edge of the trace: the first stored edge along some index entry of one of the first
      h nodes, one that is closer than the bound. */
  ghost predicate Crossed(ix: Index, dir: Direction, order: seq<Item>, h: nat, k: nat, e: TraceEdge)
    requires ix.Wf()
  {
    exists i :: 0 <= i < h && i < |order| && order[i].depth < k &&
                CrossedFrom(ix.edges.Values(), dir, order[i].id, Neighbors(AdjacencyOf(ix, dir), order[i].id), e)
  }

  lemma {:induction false} CollectAllIsCrossed(ix: Index, dir: Direction, order: seq<Item>, h: nat, k: nat)
    requires ix.Wf() && h <= |order|
    ensures Distinct(CollectAll(ix, dir, order, h, k))
    ensures forall e :: e in CollectAll(ix, dir, order, h, k) <==> Crossed(ix, dir, order, h, k, e)
  {
    if h > 0 {
      var x, before := order[h - 1], CollectAll(ix, dir, order, h - 1, k);
      CollectAllIsCrossed(ix, dir, order, h - 1, k);
      if x.depth < k {
        CollectIsCrossed(ix.edges.Values(), dir, x.id, Neighbors(AdjacencyOf(ix, dir), x.id), before);
      }
      assert forall e :: Crossed(ix, dir, order, h, k, e) <==>
          Crossed(ix, dir, order, h - 1, k, e) ||
          (x.depth < k && CrossedFrom(ix.edges.Values(), dir, x.id, Neighbors(AdjacencyOf(ix, dir), x.id), e));
    }
  }

  // ----- the search itself

  /** The dictionary of visited nodes lists the search order. */
  ghost predicate Lists(visited: Dict<NodeId, TraceNode>, ix: Index, order: seq<Item>) {
    && visited.Wf() && |visited.keys| == |order|
    && (forall i :: 0 <= i < |order| ==> visited.keys[i] == order[i].id)
    && (forall id <- visited.at :: id in ix.nodes.at && visited.at[id] == ix.nodes.at[id])
  }

  lemma ListsSeen(visited: Dict<NodeId, TraceNode>, ix: Index, order: seq<Item>, v: NodeId)
    requires Lists(visited, ix, order)
    ensures v in visited.at <==> Seen(order, v)
  {
    if v in visited.at {
      var i :| 0 <= i < |visited.keys| && visited.keys[i] == v;
      assert order[i] in order;
    }
    if x :| x in order && x.id == v {
      var i :| 0 <= i < |order| && order[i] == x;
      assert visited.keys[i] in visited.keys;
    }
  }

  lemma NextNeighbor(ix: Index, dir: Direction, x: Item, order: seq<Item>, edges: seq<TraceEdge>,
                     vs: seq<NodeId>, j: nat)
    requires j < |vs|
    ensures VisitAll(ix.nodes.at.Keys, order, vs[..j + 1], x.depth)
            == Visit(ix.nodes.at.Keys, VisitAll(ix.nodes.at.Keys, order, vs[..j], x.depth), vs[j], x.depth)
    ensures ix.Wf() ==> Collect(ix.edges.Values(), dir, x.id, vs[..j + 1], edges)
                        == AddNew(Collect(ix.edges.Values(), dir, x.id, vs[..j], edges),
                                  FirstEdge(ix.edges.Values(), dir, x.id, vs[j]))
  {
    assert vs[..j + 1][..j] == vs[..j];
  }

  /** A stored neighbour that has not been visited is visited and queued. */
  method VisitNode(ix: Index, x: Item, v: NodeId, visited0: Dict<NodeId, TraceNode>, queue0: seq<Item>,
                   ghost order0: seq<Item>, ghost h: nat)
    returns (visited: Dict<NodeId, TraceNode>, queue: seq<Item>, ghost order: seq<Item>)
    requires h < |order0| && Lists(visited0, ix, order0) && queue0 == order0[h + 1..]
    ensures order == Visit(ix.nodes.at.Keys, order0, v, x.depth) && order0 <= order
    ensures Lists(visited, ix, order) && queue == order[h + 1..]
  {
    visited, queue, order := visited0, queue0, order0;
    ListsSeen(visited, ix, order, v);
    if v in ix.nodes.at && v !in visited.at {
      visited := visited.Put(v, ix.nodes.at[v]);
      queue := queue + [Item(v, x.depth + 1)];
      order := order + [Item(v, x.depth + 1)];
    }
  }

  /** The inner loop: the node at position h hands on its neighbours and its edges. */
  method Expand(ix: Index, dir: Direction, x: Item, visited0: Dict<NodeId, TraceNode>, queue0: seq<Item>,
                edges0: seq<TraceEdge>, ghost order0: seq<Item>, ghost h: nat)
    returns (visited: Dict<NodeId, TraceNode>, queue: seq<Item>, edges: seq<TraceEdge>, ghost order: seq<Item>)
    requires ix.Wf() && h < |order0| && Lists(visited0, ix, order0) && queue0 == order0[h + 1..]
    ensures order == VisitAll(ix.nodes.at.Keys, order0, Neighbors(AdjacencyOf(ix, dir), x.id), x.depth)
    ensures order0 <= order && Lists(visited, ix, order) && queue == order[h + 1..]
    ensures edges == Collect(ix.edges.Values(), dir, x.id, Neighbors(AdjacencyOf(ix, dir), x.id), edges0)
  {
    visited, queue, edges, order := visited0, queue0, edges0, order0;
    var neighbors := Neighbors(AdjacencyOf(ix, dir), x.id);
    for j := 0 to |neighbors|
      invariant order == VisitAll(ix.nodes.at.Keys, order0, neighbors[..j], x.depth)
      invariant order0 <= order && Lists(visited, ix, order) && queue == order[h + 1..]
      invariant edges == Collect(ix.edges.Values(), dir, x.id, neighbors[..j], edges0)
    {
      NextNeighbor(ix, dir, x, order0, edges0, neighbors, j);
      visited, queue, order := VisitNode(ix, x, neighbors[j], visited, queue, order, h);
      edges := AddNew(edges, FirstEdge(ix.edges.Values(), dir, x.id, neighbors[j]));
    }
    assert neighbors[..|neighbors|] == neighbors;
  }

  lemma ListsFit(visited: Dict<NodeId, TraceNode>, ix: Index, order: seq<Item>)
    requires Lists(visited, ix, order)
    ensures |order| <= |ix.nodes.at.Keys|
  {
    DistinctCard(visited.keys);
    var ids := set id <- visited.keys;
    assert ids <= ix.nodes.at.Keys;
    Card(ids, ix.nodes.at.Keys);
  }

  function Bound(maxDepth: int): nat {
    if maxDepth < 0 then 0 else maxDepth
  }

  /** The search order after h turns of the outer loop. */
  ghost function OrderAfter(adj: Adjacency, nodes: set<NodeId>, s: NodeId, k: nat, h: nat): seq<Item> {
    if h == 0 then [Item(s, 0)]
    else
      Turn(adj, nodes, OrderAfter(adj, nodes, s, k, h - 1), h - 1, k)
  }

  lemma {:induction false} VisitAllPrefix(nodes: set<NodeId>, order: seq<Item>, vs: seq<NodeId>, d: nat)
    ensures order <= VisitAll(nodes, order, vs, d)
  {
    if vs != [] {
      VisitAllPrefix(nodes, order, vs[..|vs| - 1], d);
    }
  }

  lemma {:induction false} OrderStarts(adj: Adjacency, nodes: set<NodeId>, s: NodeId, k: nat, h: nat)
    ensures [Item(s, 0)] <= OrderAfter(adj, nodes, s, k, h)
  {
    if h > 0 {
      OrderStarts(adj, nodes, s, k, h - 1);
      var before := OrderAfter(adj, nodes, s, k, h - 1);
      if h - 1 < |before| {
        VisitAllPrefix(nodes, before, Neighbors(adj, before[h - 1].id), before[h - 1].depth);
      }
    }
  }

  lemma NextTurn(adj: Adjacency, nodes: set<NodeId>, s: NodeId, levels: seq<set<NodeId>>, before: seq<Item>, h: nat)
    ensures IsLevels(adj, nodes, s, levels) && BfsInv(adj, nodes, s, levels, before, h) && h < |before| ==>
              BfsInv(adj, nodes, s, levels, Turn(adj, nodes, before, h, |levels| - 1), h + 1)
  {
    if IsLevels(adj, nodes, s, levels) && BfsInv(adj, nodes, s, levels, before, h) && h < |before| {
      TurnKeepsInv(adj, nodes, s, levels, before, h, Turn(adj, nodes, before, h, |levels| - 1));
    }
  }

  /** The invariant for as long as there are turns to take. */
  ghost predicate TurnsKeepInv(adj: Adjacency, nodes: set<NodeId>, s: NodeId, levels: seq<set<NodeId>>,
                               order: seq<Item>, h: nat) {
    h <= |order| ==> BfsInv(adj, nodes, s, levels, order, h)
  }

  lemma NextOrder(adj: Adjacency, nodes: set<NodeId>, s: NodeId, levels: seq<set<NodeId>>, before: seq<Item>, h: nat)
    ensures IsLevels(adj, nodes, s, levels) && TurnsKeepInv(adj, nodes, s, levels, before, h) ==>
              TurnsKeepInv(adj, nodes, s, levels, Turn(adj, nodes, before, h, |levels| - 1), h + 1)
  {
    if IsLevels(adj, nodes, s, levels) && h < |before| {
      NextTurn(adj, nodes, s, levels, before, h);
    }
  }

  lemma {:induction false} OrderInv(adj: Adjacency, nodes: set<NodeId>, s: NodeId, levels: seq<set<NodeId>>, h: nat)
    ensures s in nodes && IsLevels(adj, nodes, s, levels) ==>
              TurnsKeepInv(adj, nodes, s, levels, OrderAfter(adj, nodes, s, |levels| - 1, h), h)
  {
    if s in nodes && IsLevels(adj, nodes, s, levels) {
      if h == 0 {
        SearchStarts(adj, nodes, s, levels);
      } else {
        OrderInv(adj, nodes, s, levels, h - 1);
        NextOrder(adj, nodes, s, levels, OrderAfter(adj, nodes, s, |levels| - 1, h - 1), h - 1);
      }
    }
  }

  /** One turn of the outer loop: a node at the depth bound is popped but not expanded. */
  method PopNext(ix: Index, dir: Direction, maxDepth: int, visited0: Dict<NodeId, TraceNode>, queue0: seq<Item>,
                 edges0: seq<TraceEdge>, ghost order0: seq<Item>, ghost h: nat)
    returns (visited: Dict<NodeId, TraceNode>, queue: seq<Item>, edges: seq<TraceEdge>, ghost order: seq<Item>)
    requires ix.Wf() && Lists(visited0, ix, order0)
    requires h < |order0| && queue0 == order0[h..] && edges0 == CollectAll(ix, dir, order0, h, Bound(maxDepth))
    ensures Lists(visited, ix, order) && h < |order| && queue == order[h + 1..]
    ensures order == Turn(AdjacencyOf(ix, dir), ix.nodes.at.Keys, order0, h, Bound(maxDepth))
    ensures edges == CollectAll(ix, dir, order, h + 1, Bound(maxDepth))
  {
    visited, edges, order := visited0, edges0, order0;
    var x := queue0[0];
    queue := queue0[1..];
    if x.depth < maxDepth {
      visited, queue, edges, order := Expand(ix, dir, x, visited, queue, edges, order, h);
    }
    CollectAllPrefix(ix, dir, order0, order, h, Bound(maxDepth));
  }

  /** The outer loop. */
  method Search(ix: Index, dir: Direction, start: TraceNode, maxDepth: int)
    returns (visited: Dict<NodeId, TraceNode>, edges: seq<TraceEdge>, ghost order: seq<Item>)
    requires ix.Wf() && start.nodeId in ix.nodes.at && ix.nodes.at[start.nodeId] == start
    ensures Lists(visited, ix, order)
    ensures order == OrderAfter(AdjacencyOf(ix, dir), ix.nodes.at.Keys, start.nodeId, Bound(maxDepth), |order|)
    ensures edges == CollectAll(ix, dir, order, |order|, Bound(maxDepth))
  {
    visited, edges, order := Empty().Put(start.nodeId, start), [], [Item(start.nodeId, 0)];
    var queue := [Item(start.nodeId, 0)];
    ghost var h := 0;
    while queue != []
      invariant h <= |order| && queue == order[h..]
      invariant Lists(visited, ix, order)
      invariant order == OrderAfter(AdjacencyOf(ix, dir), ix.nodes.at.Keys, start.nodeId, Bound(maxDepth), h)
      invariant edges == CollectAll(ix, dir, order, h, Bound(maxDepth))
      decreases |ix.nodes.at.Keys| - h
    {
      ListsFit(visited, ix, order);
      visited, queue, edges, order := PopNext(ix, dir, maxDepth, visited, queue, edges, order, h);
      h := h + 1;
    }
  }

  datatype TraceChain =
    | EmptyChain
    | TraceChain(startNodeId: NodeId, endNodeId: NodeId, direction: Direction, nodes: seq<TraceNode>,
                 edges: seq<TraceEdge>, depth: int)

  /** The nodes of an exact trace: the stored nodes within k edges of the start, each once, in
      order of their distance, which `order` records. */
  ghost predicate ExactNodes(adj: Adjacency, nodes: set<NodeId>, start: NodeId, k: nat, order: seq<Item>) {
    && order != [] && order[0].id == start && EachOnce(order) && ByDepth(order)
    && (forall v :: Seen(order, v) <==> Reaches(adj, nodes, start, k, v))
    && (forall x <- order :: x.id in nodes && Reaches(adj, nodes, start, x.depth, x.id) &&
                             (x.depth > 0 ==> !Reaches(adj, nodes, start, x.depth - 1, x.id)))
  }

  /** The edges of an exact trace: for every index entry of every node that is closer than k,
      the first stored edge along it, each once. */
  ghost predicate ExactEdges(ix: Index, dir: Direction, start: NodeId, k: nat, edges: seq<TraceEdge>)
    requires ix.Wf()
  {
    && Distinct(edges)
    && forall e :: e in edges <==> exists u :: LeadsInward(ix, dir, start, k, u, e)
  }

  ghost predicate LeadsInward(ix: Index, dir: Direction, start: NodeId, k: nat, u: NodeId, e: TraceEdge)
    requires ix.Wf()
  {
    && k > 0 && Reaches(AdjacencyOf(ix, dir), ix.nodes.at.Keys, start, k - 1, u)
    && CrossedFrom(ix.edges.Values(), dir, u, Neighbors(AdjacencyOf(ix, dir), u), e)
  }

  lemma NodesAreExact(adj: Adjacency, nodes: set<NodeId>, s: NodeId, k: nat, order: seq<Item>)
    requires s in nodes && order == OrderAfter(adj, nodes, s, k, |order|)
    ensures ExactNodes(adj, nodes, s, k, order)
    ensures forall x <- order :: x.depth < k <==> k > 0 && Reaches(adj, nodes, s, k - 1, x.id)
  {
    var levels := Levels(adj, nodes, s, k);
    OrderInv(adj, nodes, s, levels, |order|);
    OrderStarts(adj, nodes, s, k, |order|);
    SearchIsExact(adj, nodes, s, levels, order);
    forall v
      ensures Seen(order, v) <==> Reaches(adj, nodes, s, k, v)
    {
      WithinIsReach(adj, nodes, s, k, v);
    }
    forall x | x in order
      ensures x.id in nodes && Reaches(adj, nodes, s, x.depth, x.id)
      ensures x.depth > 0 ==> !Reaches(adj, nodes, s, x.depth - 1, x.id)
      ensures x.depth < k <==> k > 0 && Reaches(adj, nodes, s, k - 1, x.id)
    {
      assert AtDistance(levels, x);
      WithinIsReach(adj, nodes, s, x.depth, x.id);
      if x.depth > 0 {
        WithinIsReach(adj, nodes, s, x.depth - 1, x.id);
      }
      if k > 0 {
        WithinIsReach(adj, nodes, s, k - 1, x.id);
      }
    }
  }

  lemma ReachGrows(adj: Adjacency, nodes: set<NodeId>, s: NodeId, m: nat, k: nat, v: NodeId)
    requires m <= k && Reaches(adj, nodes, s, m, v)
    ensures Reaches(adj, nodes, s, k, v)
  {
  }

  lemma EdgesAreExact(ix: Index, dir: Direction, s: NodeId, k: nat, order: seq<Item>)
    requires ix.Wf() && ExactNodes(AdjacencyOf(ix, dir), ix.nodes.at.Keys, s, k, order)
    requires forall x <- order :: x.depth < k <==>
                                  k > 0 && Reaches(AdjacencyOf(ix, dir), ix.nodes.at.Keys, s, k - 1, x.id)
    ensures ExactEdges(ix, dir, s, k, CollectAll(ix, dir, order, |order|, k))
  {
    CollectAllIsCrossed(ix, dir, order, |order|, k);
    forall e
      ensures Crossed(ix, dir, order, |order|, k, e) <==> exists u :: LeadsInward(ix, dir, s, k, u, e)
    {
      if Crossed(ix, dir, order, |order|, k, e) {
        var i :| 0 <= i < |order| && order[i].depth < k &&
                 CrossedFrom(ix.edges.Values(), dir, order[i].id, Neighbors(AdjacencyOf(ix, dir), order[i].id), e);
        assert order[i] in order;
        assert LeadsInward(ix, dir, s, k, order[i].id, e);
      }
      if u :| LeadsInward(ix, dir, s, k, u, e) {
        ReachGrows(AdjacencyOf(ix, dir), ix.nodes.at.Keys, s, k - 1, k, u);
        var x :| x in order && x.id == u;
        var i :| 0 <= i < |order| && order[i] == x;
      }
    }
  }

  /** The chain holds exactly the stored nodes within the bound, by distance, and their edges. */
  ghost predicate RightChain(ix: Index, dir: Direction, start: NodeId, maxDepth: int, order: seq<Item>,
                             chain: TraceChain)
    requires ix.Wf()
  {
    && chain.TraceChain? && chain.startNodeId == start && chain.direction == dir && chain.depth == maxDepth
    && ExactNodes(AdjacencyOf(ix, dir), ix.nodes.at.Keys, start, Bound(maxDepth), order)
    && |chain.nodes| == |order| > 0 && chain.endNodeId == order[|order| - 1].id
    && (forall i :: 0 <= i < |order| ==> order[i].id in ix.nodes.at && chain.nodes[i] == ix.nodes.at[order[i].id])
    && ExactEdges(ix, dir, start, Bound(maxDepth), chain.edges)
  }

  lemma ChainIsRight(ix: Index, dir: Direction, start: NodeId, maxDepth: int,
                     visited: Dict<NodeId, TraceNode>, edges: seq<TraceEdge>, order: seq<Item>)
    requires ix.Wf() && start in ix.nodes.at && Lists(visited, ix, order)
    requires order == OrderAfter(AdjacencyOf(ix, dir), ix.nodes.at.Keys, start, Bound(maxDepth), |order|)
    requires edges == CollectAll(ix, dir, order, |order|, Bound(maxDepth))
    ensures var endId := if |visited.keys| > 1 then visited.keys[|visited.keys| - 1] else start;
            RightChain(ix, dir, start, maxDepth, order,
                       TraceChain(start, endId, dir, visited.Values(), edges, maxDepth))
  {
    var k := Bound(maxDepth);
    NodesAreExact(AdjacencyOf(ix, dir), ix.nodes.at.Keys, start, k, order);
    EdgesAreExact(ix, dir, start, k, order);
    OrderStarts(AdjacencyOf(ix, dir), ix.nodes.at.Keys, start, k, |order|);
    ValuesInOrder(visited, ix, order);
  }

  lemma ValuesInOrder(visited: Dict<NodeId, TraceNode>, ix: Index, order: seq<Item>)
    requires Lists(visited, ix, order)
    ensures |visited.Values()| == |order|
    ensures forall i :: 0 <= i < |order| ==>
                          order[i].id in ix.nodes.at && visited.Values()[i] == ix.nodes.at[order[i].id]
  {
    forall i | 0 <= i < |order|
      ensures order[i].id in ix.nodes.at && visited.Values()[i] == ix.nodes.at[order[i].id]
    {
      assert visited.keys[i] in visited.keys;
    }
  }

  ghost predicate Visits(nodes: seq<TraceNode>, v: NodeId) {
    exists n <- nodes :: n.nodeId == v
  }

  /** No node comes before one that is nearer to the start. */
  ghost predicate NearestFirst(adj: Adjacency, nodes: set<NodeId>, start: NodeId, found: seq<TraceNode>) {
    forall i, j, d: nat :: 0 <= i < j < |found| && Reaches(adj, nodes, start, d, found[j].nodeId) ==>
                             Reaches(adj, nodes, start, d, found[i].nodeId)
  }

  /** An exact trace: precisely the stored nodes whose distance from the start is within the
      bound, each once and nearest first, with precisely their edges. */
  ghost predicate ExactChain(ix: Index, dir: Direction, maxDepth: int, chain: TraceChain)
    requires ix.Wf() && chain.TraceChain?
  {
    var adj, ids, start := AdjacencyOf(ix, dir), ix.nodes.at.Keys, chain.startNodeId;
    && chain.nodes != [] && chain.nodes[0].nodeId == start
    && chain.endNodeId == chain.nodes[|chain.nodes| - 1].nodeId
    && chain.direction == dir && chain.depth == maxDepth
    && (forall n <- chain.nodes :: n.nodeId in ix.nodes.at && ix.nodes.at[n.nodeId] == n)
    && (forall i, j :: 0 <= i < j < |chain.nodes| ==> chain.nodes[i].nodeId != chain.nodes[j].nodeId)
    && (forall v :: Visits(chain.nodes, v) <==> Reaches(adj, ids, start, Bound(maxDepth), v))
    && NearestFirst(adj, ids, start, chain.nodes)
    && ExactEdges(ix, dir, start, Bound(maxDepth), chain.edges)
  }

  ghost predicate SameNodes(found: seq<TraceNode>, order: seq<Item>) {
    |found| == |order| && forall i :: 0 <= i < |order| ==> found[i].nodeId == order[i].id
  }

  lemma OrderIsNearestFirst(adj: Adjacency, nodes: set<NodeId>, start: NodeId, k: nat, order: seq<Item>,
                            found: seq<TraceNode>)
    requires ExactNodes(adj, nodes, start, k, order) && SameNodes(found, order)
    ensures NearestFirst(adj, nodes, start, found)
  {
    forall i, j, d: nat | 0 <= i < j < |found| && Reaches(adj, nodes, start, d, found[j].nodeId)
      ensures Reaches(adj, nodes, start, d, found[i].nodeId)
    {
      assert order[i] in order && order[j] in order && order[i].depth <= order[j].depth;
      if order[j].depth > d {
        ReachGrows(adj, nodes, start, d, order[j].depth - 1, order[j].id);
      } else {
        ReachGrows(adj, nodes, start, order[i].depth, d, order[i].id);
      }
    }
  }

  lemma VisitsWhatWasSeen(found: seq<TraceNode>, order: seq<Item>, v: NodeId)
    requires SameNodes(found, order)
    ensures Visits(found, v) <==> Seen(order, v)
  {
    if n :| n in found && n.nodeId == v {
      var i :| 0 <= i < |found| && found[i] == n;
      assert order[i] in order;
    }
    if x :| x in order && x.id == v {
      var i :| 0 <= i < |order| && order[i] == x;
      assert found[i] in found;
    }
  }

  lemma RightIsExact(ix: Index, dir: Direction, start: NodeId, maxDepth: int, order: seq<Item>, chain: TraceChain)
    requires ix.Wf() && UnderTheirIds(ix.nodes.at) && RightChain(ix, dir, start, maxDepth, order, chain)
    ensures ExactChain(ix, dir, maxDepth, chain)
  {
    assert SameNodes(chain.nodes, order);
    OrderIsNearestFirst(AdjacencyOf(ix, dir), ix.nodes.at.Keys, start, Bound(maxDepth), order, chain.nodes);
    forall v
      ensures Visits(chain.nodes, v) <==> Seen(order, v)
    {
      VisitsWhatWasSeen(chain.nodes, order, v);
    }
  }

  // ----- the same by the edges themselves

  /** The end an edge is followed from, or the one it is followed to. */
  type End = TraceEdge -> NodeId

  ghost function Source(): End {
    (e: TraceEdge) => e.sourceId
  }

  ghost function Target(): End {
    (e: TraceEdge) => e.targetId
  }

  /** One can go from u to v along some edge that was ever added. */
  ghost predicate Along(added: seq<TraceEdge>, from: End, to: End, u: NodeId, v: NodeId) {
    exists e :: e in added && from(e) == u && to(e) == v
  }

  ghost predicate AlongTo(added: seq<TraceEdge>, ids: set<NodeId>, from: End, to: End, u: NodeId, v: NodeId) {
    v in ids && Along(added, from, to, u, v)
  }

  /** A path along edges that were ever added, through stored nodes. */
  ghost predicate Path(added: seq<TraceEdge>, ids: set<NodeId>, from: End, to: End, p: seq<NodeId>) {
    p != [] && forall i, j :: 0 <= i && i + 1 == j < |p| ==> AlongTo(added, ids, from, to, p[i], p[j])
  }

  /** Some path from u to v has at most k edges. */
  ghost predicate PathWithin(added: seq<TraceEdge>, ids: set<NodeId>, from: End, to: End, u: NodeId, k: int,
                             v: NodeId) {
    exists p :: Path(added, ids, from, to, p) && p[0] == u && p[|p| - 1] == v && |p| <= k + 1
  }

  /** `stored[i]` is the first stored edge between its ends. */
  ghost predicate FirstBetween(stored: seq<TraceEdge>, i: int) {
    0 <= i < |stored| &&
    forall j :: 0 <= j < i ==> stored[j].sourceId != stored[i].sourceId || stored[j].targetId != stored[i].targetId
  }

  ghost predicate VisitsWithin(added: seq<TraceEdge>, ids: set<NodeId>, from: End, to: End, maxDepth: int,
                               chain: TraceChain)
    requires chain.TraceChain?
  {
    forall v :: Visits(chain.nodes, v) <==>
                  v == chain.startNodeId || PathWithin(added, ids, from, to, chain.startNodeId, maxDepth, v)
  }

  ghost predicate NearerFirst(added: seq<TraceEdge>, ids: set<NodeId>, from: End, to: End, chain: TraceChain)
    requires chain.TraceChain?
  {
    forall i, j, d: nat ::
      0 <= i < j < |chain.nodes| && PathWithin(added, ids, from, to, chain.startNodeId, d, chain.nodes[j].nodeId) ==>
        PathWithin(added, ids, from, to, chain.startNodeId, d, chain.nodes[i].nodeId)
  }

  /** An edge belongs to the trace exactly when it is the first stored one between its ends and can
      be followed from a node that is nearer than the bound. */
  ghost predicate EdgesWithin(added: seq<TraceEdge>, stored: seq<TraceEdge>, ids: set<NodeId>, from: End, to: End,
                              maxDepth: int, chain: TraceChain)
    requires chain.TraceChain?
  {
    forall e :: e in chain.edges <==>
                  && (exists i :: FirstBetween(stored, i) && stored[i] == e)
                  && PathWithin(added, ids, from, to, chain.startNodeId, maxDepth - 1, from(e))
  }

  ghost predicate TracedBy(added: seq<TraceEdge>, stored: seq<TraceEdge>, ids: set<NodeId>, from: End, to: End,
                           maxDepth: int, chain: TraceChain)
    requires chain.TraceChain?
  {
    && VisitsWithin(added, ids, from, to, maxDepth, chain)
    && NearerFirst(added, ids, from, to, chain)
    && EdgesWithin(added, stored, ids, from, to, maxDepth, chain)
  }

  /** A forward trace follows edges from source to target. */
  ghost predicate TracedForward(added: seq<TraceEdge>, stored: seq<TraceEdge>, ids: set<NodeId>,
                                maxDepth: int, chain: TraceChain)
    requires chain.TraceChain?
  {
    TracedBy(added, stored, ids, Source(), Target(), maxDepth, chain)
  }

  /** A backward trace follows edges from target to source. */
  ghost predicate TracedBackward(added: seq<TraceEdge>, stored: seq<TraceEdge>, ids: set<NodeId>,
                                 maxDepth: int, chain: TraceChain)
    requires chain.TraceChain?
  {
    TracedBy(added, stored, ids, Target(), Source(), maxDepth, chain)
  }

  ghost predicate Ends(dir: Direction, from: End, to: End) {
    && (forall e :: from(e) == if dir.Forward? then e.sourceId else e.targetId)
    && (forall e :: to(e) == if dir.Forward? then e.targetId else e.sourceId)
  }

  lemma {:induction false} TargetsAre(edges: seq<TraceEdge>, u: NodeId, v: NodeId)
    ensures v in Targets(edges, u) <==> exists e :: e in edges && e.sourceId == u && e.targetId == v
    ensures v in Sources(edges, u) <==> exists e :: e in edges && e.targetId == u && e.sourceId == v
  {
    if edges != [] {
      TargetsAre(edges[..|edges| - 1], u, v);
      assert edges == edges[..|edges| - 1] + [edges[|edges| - 1]];
    }
  }

  lemma NeighborsAreAlong(nodeLog: seq<TraceNode>, added: seq<TraceEdge>, dir: Direction, from: End, to: End,
                          u: NodeId, v: NodeId)
    requires Ends(dir, from, to)
    ensures v in Neighbors(AdjacencyOf(Replay(nodeLog, added), dir), u) <==> Along(added, from, to, u, v)
  {
    IndexIsHistory(nodeLog, added, u);
    TargetsAre(added, u, v);
  }

  lemma WalksArePaths(nodeLog: seq<TraceNode>, added: seq<TraceEdge>, ids: set<NodeId>, dir: Direction,
                      from: End, to: End, p: seq<NodeId>)
    requires Ends(dir, from, to)
    ensures Walk(AdjacencyOf(Replay(nodeLog, added), dir), ids, p) <==> Path(added, ids, from, to, p)
  {
    forall u, v
      ensures Link(AdjacencyOf(Replay(nodeLog, added), dir), ids, u, v) <==> AlongTo(added, ids, from, to, u, v)
    {
      NeighborsAreAlong(nodeLog, added, dir, from, to, u, v);
    }
  }

  lemma ReachIsPath(nodeLog: seq<TraceNode>, added: seq<TraceEdge>, ids: set<NodeId>, dir: Direction,
                    from: End, to: End, u: NodeId, k: nat, v: NodeId)
    requires Ends(dir, from, to)
    ensures Reaches(AdjacencyOf(Replay(nodeLog, added), dir), ids, u, k, v) <==>
              PathWithin(added, ids, from, to, u, k, v)
  {
    var adj := AdjacencyOf(Replay(nodeLog, added), dir);
    forall p
      ensures WalkTo(adj, ids, u, v, p) <==> Path(added, ids, from, to, p) && p[0] == u && p[|p| - 1] == v
    {
      WalksArePaths(nodeLog, added, ids, dir, from, to, p);
    }
  }

  /** `FirstEdge` finds the first stored edge between its ends. */
  lemma {:induction false} FirstEdgeIsFirst(stored: seq<TraceEdge>, dir: Direction, u: NodeId, v: NodeId)
    ensures match FirstEdge(stored, dir, u, v)
            case Some(e) => Joins(e, dir, u, v) && exists i :: FirstBetween(stored, i) && stored[i] == e
            case None => forall e <- stored :: !Joins(e, dir, u, v)
  {
    if stored == [] {
    } else if Joins(stored[0], dir, u, v) {
      assert FirstBetween(stored, 0);
    } else {
      FirstEdgeIsFirst(stored[1..], dir, u, v);
      assert stored == [stored[0]] + stored[1..];
      if FirstEdge(stored[1..], dir, u, v).Some? {
        var e := FirstEdge(stored[1..], dir, u, v).value;
        var i :| FirstBetween(stored[1..], i) && stored[1..][i] == e;
        assert forall j :: 0 < j <= i ==> stored[1..][j - 1] == stored[j];
        assert FirstBetween(stored, i + 1) && stored[i + 1] == e;
      }
    }
  }

  /** The first stored edge between two nodes is the only one that is. */
  lemma FirstIsOnly(stored: seq<TraceEdge>, dir: Direction, u: NodeId, v: NodeId, i: int)
    requires FirstBetween(stored, i) && Joins(stored[i], dir, u, v)
    ensures FirstEdge(stored, dir, u, v) == Some(stored[i])
  {
    FirstEdgeIsFirst(stored, dir, u, v);
    assert stored[i] in stored;
    var e := FirstEdge(stored, dir, u, v).value;
    var j :| FirstBetween(stored, j) && stored[j] == e;
    assert i == j;
  }

  lemma {:induction false} StoredWereAdded(nodeLog: seq<TraceNode>, added: seq<TraceEdge>)
    ensures AllAdded(Replay(nodeLog, added).edges.at, added)
    decreases |added|, |nodeLog|
  {
    if added != [] {
      StoredWereAdded(nodeLog, added[..|added| - 1]);
      assert added == added[..|added| - 1] + [added[|added| - 1]];
    } else if nodeLog != [] {
      StoredWereAdded(nodeLog[..|nodeLog| - 1], []);
    }
  }

  ghost predicate AllAdded(stored: map<EdgeId, TraceEdge>, added: seq<TraceEdge>) {
    forall id <- stored :: stored[id] in added
  }

  lemma StoredIsAdded(nodeLog: seq<TraceNode>, added: seq<TraceEdge>, e: TraceEdge)
    requires e in Replay(nodeLog, added).edges.Values()
    ensures e in added
  {
    var edges := Replay(nodeLog, added).edges;
    StoredWereAdded(nodeLog, added);
    var i :| 0 <= i < |edges.keys| && edges.Values()[i] == e;
    assert edges.keys[i] in edges.keys;
  }

  /** The edge is crossed from u exactly when it is the first stored one between its ends, of which
      it is followed from u. */
  lemma CrossedAre(nodeLog: seq<TraceNode>, added: seq<TraceEdge>, dir: Direction, from: End, to: End,
                   u: NodeId, e: TraceEdge)
    requires Ends(dir, from, to)
    ensures var ix := Replay(nodeLog, added);
            CrossedFrom(ix.edges.Values(), dir, u, Neighbors(AdjacencyOf(ix, dir), u), e) <==>
              from(e) == u && exists i :: FirstBetween(ix.edges.Values(), i) && ix.edges.Values()[i] == e
  {
    var ix := Replay(nodeLog, added);
    var stored, vs := ix.edges.Values(), Neighbors(AdjacencyOf(ix, dir), u);
    if CrossedFrom(stored, dir, u, vs, e) {
      var v :| v in vs && FirstEdge(stored, dir, u, v) == Some(e);
      FirstEdgeIsFirst(stored, dir, u, v);
    }
    if from(e) == u && exists i :: FirstBetween(stored, i) && stored[i] == e {
      var i :| FirstBetween(stored, i) && stored[i] == e;
      FirstIsOnly(stored, dir, u, to(e), i);
      assert e in stored;
      StoredIsAdded(nodeLog, added, e);
      assert Along(added, from, to, u, to(e));
      NeighborsAreAlong(nodeLog, added, dir, from, to, u, to(e));
    }
  }

  lemma ExactIsTraced(nodeLog: seq<TraceNode>, added: seq<TraceEdge>, dir: Direction, from: End, to: End,
                      maxDepth: int, chain: TraceChain)
    requires Ends(dir, from, to) && chain.TraceChain? && ExactChain(Replay(nodeLog, added), dir, maxDepth, chain)
    ensures var ix := Replay(nodeLog, added);
            TracedBy(added, ix.edges.Values(), ix.nodes.at.Keys, from, to, maxDepth, chain)
  {
    NodesAreTraced(nodeLog, added, dir, from, to, maxDepth, chain);
    OrderIsTraced(nodeLog, added, dir, from, to, maxDepth, chain);
    EdgesAreTraced(nodeLog, added, dir, from, to, maxDepth, chain);
  }

  lemma TracedEitherWay(nodeLog: seq<TraceNode>, added: seq<TraceEdge>, dir: Direction, maxDepth: int,
                        chain: TraceChain)
    requires chain.TraceChain? && ExactChain(Replay(nodeLog, added), dir, maxDepth, chain)
    ensures var ix := Replay(nodeLog, added);
            && (dir.Forward? ==> TracedForward(added, ix.edges.Values(), ix.nodes.at.Keys, maxDepth, chain))
            && (dir.Backward? ==> TracedBackward(added, ix.edges.Values(), ix.nodes.at.Keys, maxDepth, chain))
  {
    if dir.Forward? {
      ExactIsTraced(nodeLog, added, dir, Source(), Target(), maxDepth, chain);
    } else {
      ExactIsTraced(nodeLog, added, dir, Target(), Source(), maxDepth, chain);
    }
  }

  lemma NodesAreTraced(nodeLog: seq<TraceNode>, added: seq<TraceEdge>, dir: Direction, from: End, to: End,
                       maxDepth: int, chain: TraceChain)
    requires Ends(dir, from, to) && chain.TraceChain? && ExactChain(Replay(nodeLog, added), dir, maxDepth, chain)
    ensures VisitsWithin(added, Replay(nodeLog, added).nodes.at.Keys, from, to, maxDepth, chain)
  {
    var ids, s := Replay(nodeLog, added).nodes.at.Keys, chain.startNodeId;
    forall v
      ensures Visits(chain.nodes, v) <==> v == s || PathWithin(added, ids, from, to, s, maxDepth, v)
    {
      ReachIsPath(nodeLog, added, ids, dir, from, to, s, Bound(maxDepth), v);
      assert chain.nodes[0] in chain.nodes;
      if maxDepth < 0 && PathWithin(added, ids, from, to, s, 0, v) {
        assert v == s;
      }
    }
  }

  lemma OrderIsTraced(nodeLog: seq<TraceNode>, added: seq<TraceEdge>, dir: Direction, from: End, to: End,
                      maxDepth: int, chain: TraceChain)
    requires Ends(dir, from, to) && chain.TraceChain? && ExactChain(Replay(nodeLog, added), dir, maxDepth, chain)
    ensures NearerFirst(added, Replay(nodeLog, added).nodes.at.Keys, from, to, chain)
  {
    var ix, s := Replay(nodeLog, added), chain.startNodeId;
    forall i, j, d: nat | 0 <= i < j < |chain.nodes|
      ensures PathWithin(added, ix.nodes.at.Keys, from, to, s, d, chain.nodes[j].nodeId) ==>
                PathWithin(added, ix.nodes.at.Keys, from, to, s, d, chain.nodes[i].nodeId)
    {
      ReachIsPath(nodeLog, added, ix.nodes.at.Keys, dir, from, to, s, d, chain.nodes[i].nodeId);
      ReachIsPath(nodeLog, added, ix.nodes.at.Keys, dir, from, to, s, d, chain.nodes[j].nodeId);
      assert NearestFirst(AdjacencyOf(ix, dir), ix.nodes.at.Keys, s, chain.nodes);
    }
  }

  lemma EdgesAreTraced(nodeLog: seq<TraceNode>, added: seq<TraceEdge>, dir: Direction, from: End, to: End,
                       maxDepth: int, chain: TraceChain)
    requires Ends(dir, from, to) && chain.TraceChain? && ExactChain(Replay(nodeLog, added), dir, maxDepth, chain)
    ensures var ix := Replay(nodeLog, added);
            EdgesWithin(added, ix.edges.Values(), ix.nodes.at.Keys, from, to, maxDepth, chain)
  {
    var ix, s, k := Replay(nodeLog, added), chain.startNodeId, Bound(maxDepth);
    var stored, ids := ix.edges.Values(), ix.nodes.at.Keys;
    assert ExactEdges(ix, dir, s, k, chain.edges);
    forall e
      ensures (exists u :: LeadsInward(ix, dir, s, k, u, e)) <==>
                && (exists i :: FirstBetween(stored, i) && stored[i] == e)
                && PathWithin(added, ids, from, to, s, maxDepth - 1, from(e))
    {
      if u :| LeadsInward(ix, dir, s, k, u, e) {
        InwardIsTraced(nodeLog, added, dir, from, to, s, maxDepth, u, e);
      }
      TracedIsInward(nodeLog, added, dir, from, to, s, maxDepth, e);
    }
  }

  lemma InwardIsTraced(nodeLog: seq<TraceNode>, added: seq<TraceEdge>, dir: Direction, from: End, to: End,
                       s: NodeId, maxDepth: int, u: NodeId, e: TraceEdge)
    requires Ends(dir, from, to)
    ensures var ix := Replay(nodeLog, added);
            LeadsInward(ix, dir, s, Bound(maxDepth), u, e) ==>
              && (exists i :: FirstBetween(ix.edges.Values(), i) && ix.edges.Values()[i] == e)
              && PathWithin(added, ix.nodes.at.Keys, from, to, s, maxDepth - 1, from(e))
  {
    var ix, k := Replay(nodeLog, added), Bound(maxDepth);
    if LeadsInward(ix, dir, s, k, u, e) {
      CrossedAre(nodeLog, added, dir, from, to, u, e);
      ReachIsPath(nodeLog, added, ix.nodes.at.Keys, dir, from, to, s, k - 1, u);
    }
  }

  lemma TracedIsInward(nodeLog: seq<TraceNode>, added: seq<TraceEdge>, dir: Direction, from: End, to: End,
                       s: NodeId, maxDepth: int, e: TraceEdge)
    requires Ends(dir, from, to)
    ensures var ix := Replay(nodeLog, added);
            && (exists i :: FirstBetween(ix.edges.Values(), i) && ix.edges.Values()[i] == e)
            && PathWithin(added, ix.nodes.at.Keys, from, to, s, maxDepth - 1, from(e))
            ==> LeadsInward(ix, dir, s, Bound(maxDepth), from(e), e)
  {
    var ix, k := Replay(nodeLog, added), Bound(maxDepth);
    if (exists i :: FirstBetween(ix.edges.Values(), i) && ix.edges.Values()[i] == e)
       && PathWithin(added, ix.nodes.at.Keys, from, to, s, maxDepth - 1, from(e)) {
      CrossedAre(nodeLog, added, dir, from, to, from(e), e);
      ReachIsPath(nodeLog, added, ix.nodes.at.Keys, dir, from, to, s, k - 1, from(e));
    }
  }

  class TraceTracker {
    const store: TraceStore

    constructor (store: TraceStore)
      ensures this.store == store
    {
      this.store := store;
    }

    /** The trace from a stored node. */
    method TraceFrom(ix: Index, dir: Direction, start: TraceNode, maxDepth: int) returns (chain: TraceChain)
      requires ix.Wf() && UnderTheirIds(ix.nodes.at) && start.nodeId in ix.nodes.at
               && ix.nodes.at[start.nodeId] == start
      ensures chain.TraceChain? && chain.startNodeId == start.nodeId && ExactChain(ix, dir, maxDepth, chain)
    {
      var visited, edges;
      ghost var order;
      visited, edges, order := Search(ix, dir, start, maxDepth);
      var endId := if |visited.keys| > 1 then visited.keys[|visited.keys| - 1] else start.nodeId;
      chain := TraceChain(start.nodeId, endId, dir, visited.Values(), edges, maxDepth);
      ChainIsRight(ix, dir, start.nodeId, maxDepth, visited, edges, order);
      RightIsExact(ix, dir, start.nodeId, maxDepth, order, chain);
    }

    /** `trace_forward` and `trace_backward`. */
    method Trace(artifactId: string, maxDepth: int, dir: Direction) returns (chain: TraceChain)
      requires store.Valid()
      ensures chain.EmptyChain? <==> FirstWithArtifact(store.nodes.Values(), artifactId).None?
      ensures chain.TraceChain? ==>
                var ix, start := store.Ix(), chain.startNodeId;
                && start in ix.nodes.at && Some(ix.nodes.at[start]) == FirstWithArtifact(ix.nodes.Values(), artifactId)
                && ExactChain(ix, dir, maxDepth, chain)
      ensures chain.TraceChain? && dir.Forward? ==>
                TracedForward(store.edgesSeen, store.edges.Values(), store.nodes.at.Keys, maxDepth, chain)
      ensures chain.TraceChain? && dir.Backward? ==>
                TracedBackward(store.edgesSeen, store.edges.Values(), store.nodes.at.Keys, maxDepth, chain)
    {
      chain := EmptyChain;
      var ix := store.Ix();
      var found := FirstWithArtifact(ix.nodes.Values(), artifactId);
      if found.Some? {
        store.StoredUnderItsId(found.value);
        chain := TraceFrom(ix, dir, found.value, maxDepth);
        TracedEitherWay(store.nodesSeen, store.edgesSeen, dir, maxDepth, chain);
      }
    }

    /** In every state of the store: v shows up in the forward trace of u exactly when u shows
        up in the backward trace of v, for the same bound. */
    lemma ForwardAndBackwardAgree(u: NodeId, v: NodeId, k: nat)
      requires store.Valid() && u in store.nodes.at && v in store.nodes.at
      ensures Reaches(AdjacencyOf(store.Ix(), Forward), store.nodes.at.Keys, u, k, v)
              <==> Reaches(AdjacencyOf(store.Ix(), Backward), store.nodes.at.Keys, v, k, u)
    {
      store.Indexes();
      Duality(store.adjacency, store.reverseAdjacency, store.nodes.at.Keys, u, v, k);
    }

    /** The forward trace of one node holds another exactly when its backward trace, under the
        same bound, holds the one. */
    lemma TracesAgree(maxDepth: int, forth: TraceChain, back: TraceChain)
      requires store.Valid() && forth.TraceChain? && back.TraceChain?
      requires ExactChain(store.Ix(), Forward, maxDepth, forth) && ExactChain(store.Ix(), Backward, maxDepth, back)
      ensures Visits(forth.nodes, back.startNodeId) <==> Visits(back.nodes, forth.startNodeId)
    {
      assert forth.nodes[0] in forth.nodes && back.nodes[0] in back.nodes;
      ForwardAndBackwardAgree(forth.startNodeId, back.startNodeId, Bound(maxDepth));
    }
  }
}
