/**
 The trace store of trace/store.py: two dictionaries, two incrementally maintained
 adjacency indexes and two append-only logs.
 */
module TraceStore {
  import opened Dicts
  import opened TraceGraph

  type EdgeId = string

  datatype TraceNode = TraceNode(nodeId: NodeId, artifactType: string, artifactId: string, name: string)

  datatype TraceEdge = TraceEdge(edgeId: EdgeId, sourceId: NodeId, targetId: NodeId, relationship: string)

  /** The in-memory state. */
  datatype Index = Index(nodes: Dict<NodeId, TraceNode>, edges: Dict<EdgeId, TraceEdge>, fwd: Adjacency,
                         bwd: Adjacency) {
    ghost predicate Wf() {
      nodes.Wf() && edges.Wf()
    }
  }

  const EMPTY: Index := Index(Dict([], map[]), Dict([], map[]), map[], map[])

  function EnsureKey(adj: Adjacency, u: NodeId): Adjacency {
    if u in adj then adj else adj[u := []]
  }

  function AppendTo(adj: Adjacency, u: NodeId, v: NodeId): Adjacency {
    adj[u := Neighbors(adj, u) + [v]]
  }

  function WithNode(ix: Index, n: TraceNode): Index {
    Index(ix.nodes.Put(n.nodeId, n), ix.edges, EnsureKey(ix.fwd, n.nodeId), EnsureKey(ix.bwd, n.nodeId))
  }

  function WithEdge(ix: Index, e: TraceEdge): Index {
    Index(ix.nodes, ix.edges.Put(e.edgeId, e), AppendTo(ix.fwd, e.sourceId, e.targetId),
          AppendTo(ix.bwd, e.targetId, e.sourceId))
  }

  /** Reading the two logs: first all nodes, then all edges. */
  function ReplayNodes(nodeLog: seq<TraceNode>): (ix: Index)
    ensures ix.Wf()
  {
    if nodeLog == [] then EMPTY
    else WithNode(ReplayNodes(nodeLog[..|nodeLog| - 1]), nodeLog[|nodeLog| - 1])
  }

  function Replay(nodeLog: seq<TraceNode>, edgeLog: seq<TraceEdge>): (ix: Index)
    ensures ix.Wf()
  {
    if edgeLog == [] then ReplayNodes(nodeLog)
    else WithEdge(Replay(nodeLog, edgeLog[..|edgeLog| - 1]), edgeLog[|edgeLog| - 1])
  }

  // ----- replay rebuilds the live state, which was built in another order

  lemma NodeAndEdgeCommute(ix: Index, n: TraceNode, e: TraceEdge)
    ensures WithNode(WithEdge(ix, e), n) == WithEdge(WithNode(ix, n), e)
  {
  }

  lemma {:induction false} ReplayMoreNodes(nodeLog: seq<TraceNode>, edgeLog: seq<TraceEdge>, n: TraceNode)
    ensures Replay(nodeLog + [n], edgeLog) == WithNode(Replay(nodeLog, edgeLog), n)
  {
    if edgeLog == [] {
      assert (nodeLog + [n])[..|nodeLog|] == nodeLog;
    } else {
      var es, e := edgeLog[..|edgeLog| - 1], edgeLog[|edgeLog| - 1];
      ReplayMoreNodes(nodeLog, es, n);
      NodeAndEdgeCommute(Replay(nodeLog, es), n, e);
    }
  }

  lemma ReplayMoreEdges(nodeLog: seq<TraceNode>, edgeLog: seq<TraceEdge>, e: TraceEdge)
    ensures Replay(nodeLog, edgeLog + [e]) == WithEdge(Replay(nodeLog, edgeLog), e)
  {
    assert (edgeLog + [e])[..|edgeLog|] == edgeLog;
  }

  ghost predicate UnderTheirIds(nodes: map<NodeId, TraceNode>) {
    forall id <- nodes :: nodes[id].nodeId == id
  }

  lemma {:induction false} NodesUnderTheirIds(nodeLog: seq<TraceNode>, edgeLog: seq<TraceEdge>)
    ensures UnderTheirIds(Replay(nodeLog, edgeLog).nodes.at)
    decreases |edgeLog|, |nodeLog|
  {
    if edgeLog != [] {
      NodesUnderTheirIds(nodeLog, edgeLog[..|edgeLog| - 1]);
    } else if nodeLog != [] {
      NodesUnderTheirIds(nodeLog[..|nodeLog| - 1], []);
    }
  }

  datatype Change = NewNode(n: TraceNode) | NewEdge(e: TraceEdge)

  function Live(changes: seq<Change>): Index {
    if changes == [] then EMPTY
    else
      var rest, c := Live(changes[..|changes| - 1]), changes[|changes| - 1];
      match c
      case NewNode(n) => WithNode(rest, n)
      case NewEdge(e) => WithEdge(rest, e)
  }

  function NodesOf(changes: seq<Change>): seq<TraceNode> {
    if changes == [] then []
    else
      var c := changes[|changes| - 1];
      NodesOf(changes[..|changes| - 1]) + if c.NewNode? then [c.n] else []
  }

  function EdgesOf(changes: seq<Change>): seq<TraceEdge> {
    if changes == [] then []
    else
      var c := changes[|changes| - 1];
      EdgesOf(changes[..|changes| - 1]) + if c.NewEdge? then [c.e] else []
  }

  /** However nodes and edges were interleaved, reloading the logs gives the same state. */
  lemma {:induction false} ReplayIsLive(changes: seq<Change>)
    ensures Replay(NodesOf(changes), EdgesOf(changes)) == Live(changes)
  {
    if changes != [] {
      var front, c := changes[..|changes| - 1], changes[|changes| - 1];
      ReplayIsLive(front);
      match c
      case NewNode(n) =>
        assert EdgesOf(changes) == EdgesOf(front);
        ReplayMoreNodes(NodesOf(front), EdgesOf(front), n);
      case NewEdge(e) =>
        assert NodesOf(changes) == NodesOf(front);
        ReplayMoreEdges(NodesOf(front), EdgesOf(front), e);
    }
  }

  // ----- the indexes are projections

  function Targets(edges: seq<TraceEdge>, u: NodeId): seq<NodeId> {
    if edges == [] then []
    else
      var e := edges[|edges| - 1];
      Targets(edges[..|edges| - 1], u) + if e.sourceId == u then [e.targetId] else []
  }

  function Sources(edges: seq<TraceEdge>, v: NodeId): seq<NodeId> {
    if edges == [] then []
    else
      var e := edges[|edges| - 1];
      Sources(edges[..|edges| - 1], v) + if e.targetId == v then [e.sourceId] else []
  }

  /** For every history, repeated edge ids included, an index entry is the list of the ends
      of the edges added so far, in the order in which they were added. */
  lemma {:induction false} IndexIsHistory(nodeLog: seq<TraceNode>, edgeLog: seq<TraceEdge>, u: NodeId)
    ensures Neighbors(Replay(nodeLog, edgeLog).fwd, u) == Targets(edgeLog, u)
    ensures Neighbors(Replay(nodeLog, edgeLog).bwd, u) == Sources(edgeLog, u)
    decreases |edgeLog|, |nodeLog|
  {
    if edgeLog != [] {
      IndexIsHistory(nodeLog, edgeLog[..|edgeLog| - 1], u);
      EntryAdded(Replay(nodeLog, edgeLog[..|edgeLog| - 1]), edgeLog[|edgeLog| - 1], u);
    } else if nodeLog != [] {
      IndexIsHistory(nodeLog[..|nodeLog| - 1], [], u);
    }
  }

  lemma EntryAdded(ix: Index, e: TraceEdge, u: NodeId)
    ensures Neighbors(WithEdge(ix, e).fwd, u) == Neighbors(ix.fwd, u) + if e.sourceId == u then [e.targetId] else []
    ensures Neighbors(WithEdge(ix, e).bwd, u) == Neighbors(ix.bwd, u) + if e.targetId == u then [e.sourceId] else []
  {
  }

  lemma {:induction false} TargetsOppositeSources(edges: seq<TraceEdge>, u: NodeId, v: NodeId)
    ensures v in Targets(edges, u) <==> u in Sources(edges, v)
  {
    if edges != [] {
      TargetsOppositeSources(edges[..|edges| - 1], u, v);
    }
  }

  lemma IndexesAreOpposite(nodeLog: seq<TraceNode>, edgeLog: seq<TraceEdge>)
    ensures Opposite(Replay(nodeLog, edgeLog).fwd, Replay(nodeLog, edgeLog).bwd)
  {
    forall u, v
      ensures v in Neighbors(Replay(nodeLog, edgeLog).fwd, u) <==> u in Neighbors(Replay(nodeLog, edgeLog).bwd, v)
    {
      IndexIsHistory(nodeLog, edgeLog, u);
      IndexIsHistory(nodeLog, edgeLog, v);
      TargetsOppositeSources(edgeLog, u, v);
    }
  }

  ghost predicate AgreesAt(ix: Index, edges: seq<TraceEdge>, u: NodeId) {
    Neighbors(ix.fwd, u) == Targets(edges, u) && Neighbors(ix.bwd, u) == Sources(edges, u)
  }

  /** The indexes list exactly the stored edges, each once. */
  ghost predicate Agrees(ix: Index)
    requires ix.Wf()
  {
    forall u :: AgreesAt(ix, ix.edges.Values(), u)
  }

  lemma {:induction false} ReplacedEdge(edges: seq<TraceEdge>, i: nat, e: TraceEdge, u: NodeId)
    requires i < |edges|
    ensures |Targets(edges[i := e], u)| + (if edges[i].sourceId == u then 1 else 0)
            == |Targets(edges, u)| + (if e.sourceId == u then 1 else 0)
  {
    var k := |edges| - 1;
    if i < k {
      assert edges[i := e][..k] == edges[..k][i := e];
      ReplacedEdge(edges[..k], i, e, u);
    } else {
      assert edges[i := e][..k] == edges[..k];
    }
  }

  lemma EdgesSnoc(edges: seq<TraceEdge>, e: TraceEdge, u: NodeId)
    ensures Targets(edges + [e], u) == Targets(edges, u) + if e.sourceId == u then [e.targetId] else []
    ensures Sources(edges + [e], u) == Sources(edges, u) + if e.targetId == u then [e.sourceId] else []
  {
    assert (edges + [e])[..|edges|] == edges;
  }

  /** An edge that is added again under a stored id leaves a stale entry behind. */
  lemma StaleEntry(ix: Index, e: TraceEdge)
    requires ix.Wf() && Agrees(ix) && e.edgeId in ix.edges.at
    ensures !Agrees(WithEdge(ix, e))
  {
    var before, ix' := ix.edges.Values(), WithEdge(ix, e);
    var i :| 0 <= i < |ix.edges.keys| && ix.edges.keys[i] == e.edgeId;
    var now := before[i := e];
    assert ix'.edges.Values() == now;
    var u := before[i].sourceId;
    ReplacedEdge(before, i, e, u);
    assert AgreesAt(ix, before, u);
    assert !AgreesAt(ix', now, u);
  }

  lemma NewEntryAt(ix: Index, before: seq<TraceEdge>, e: TraceEdge, u: NodeId)
    requires AgreesAt(ix, before, u)
    ensures AgreesAt(WithEdge(ix, e), before + [e], u)
  {
    EdgesSnoc(before, e, u);
  }

  lemma NewEntry(ix: Index, e: TraceEdge)
    requires ix.Wf() && Agrees(ix) && e.edgeId !in ix.edges.at
    ensures Agrees(WithEdge(ix, e))
  {
    var before, ix' := ix.edges.Values(), WithEdge(ix, e);
    forall u
      ensures AgreesAt(ix', before + [e], u)
    {
      assert AgreesAt(ix, before, u);
      NewEntryAt(ix, before, e, u);
    }
    assert ix'.edges.Values() == before + [e];
  }

  lemma NodeKeepsAgreement(ix: Index, n: TraceNode)
    requires ix.Wf() && Agrees(ix)
    ensures Agrees(WithNode(ix, n))
  {
    var ix' := WithNode(ix, n);
    forall u
      ensures AgreesAt(ix', ix'.edges.Values(), u)
    {
      assert AgreesAt(ix, ix.edges.Values(), u);
    }
  }

  /** Adding an edge keeps indexes and edge set in agreement exactly when its id is new. */
  lemma AgreementNeedsNewIds(ix: Index, e: TraceEdge)
    requires ix.Wf() && Agrees(ix)
    ensures Agrees(WithEdge(ix, e)) <==> e.edgeId !in ix.edges.at
  {
    if e.edgeId in ix.edges.at {
      StaleEntry(ix, e);
    } else {
      NewEntry(ix, e);
    }
  }

  // ----- agreement over whole histories

  ghost predicate NewIds(edges: seq<TraceEdge>) {
    forall i, j :: 0 <= i < j < |edges| ==> edges[i].edgeId != edges[j].edgeId
  }

  ghost predicate StoredIds(stored: map<EdgeId, TraceEdge>, edges: seq<TraceEdge>) {
    forall id :: id in stored <==> exists e <- edges :: e.edgeId == id
  }

  lemma {:induction false} EdgesStored(nodeLog: seq<TraceNode>, edgeLog: seq<TraceEdge>)
    ensures StoredIds(Replay(nodeLog, edgeLog).edges.at, edgeLog)
    decreases |edgeLog|, |nodeLog|
  {
    if edgeLog != [] {
      EdgesStored(nodeLog, edgeLog[..|edgeLog| - 1]);
      assert edgeLog == edgeLog[..|edgeLog| - 1] + [edgeLog[|edgeLog| - 1]];
    } else if nodeLog != [] {
      EdgesStored(nodeLog[..|nodeLog| - 1], []);
    }
  }

  lemma NewIdsSnoc(edges: seq<TraceEdge>, e: TraceEdge)
    ensures NewIds(edges + [e]) <==> NewIds(edges) && forall x <- edges :: x.edgeId != e.edgeId
  {
    var all := edges + [e];
    assert forall i :: 0 <= i < |edges| ==> all[i] == edges[i];
    if NewIds(all) {
      forall x | x in edges
        ensures x.edgeId != e.edgeId
      {
        var i :| 0 <= i < |edges| && edges[i] == x;
        assert all[i].edgeId != all[|edges|].edgeId;
      }
    }
  }

  /** How many stored edges leave u, and how many entries the index has for it. */
  ghost function Stored(ix: Index, u: NodeId): nat
    requires ix.Wf()
  {
    |Targets(ix.edges.Values(), u)|
  }

  ghost function Listed(ix: Index, u: NodeId): nat {
    |Neighbors(ix.fwd, u)|
  }

  /** Some entry of the index has no stored edge of its own. */
  ghost predicate HasStaleEntry(ix: Index)
    requires ix.Wf()
  {
    exists u :: Stored(ix, u) < Listed(ix, u)
  }

  /** An edge adds one entry to the index, and at most one to the stored edges. */
  lemma EdgeCounts(ix: Index, e: TraceEdge, u: NodeId)
    requires ix.Wf()
    ensures Listed(WithEdge(ix, e), u) == Listed(ix, u) + if e.sourceId == u then 1 else 0
    ensures Stored(WithEdge(ix, e), u) <= Stored(ix, u) + if e.sourceId == u then 1 else 0
    ensures e.edgeId in ix.edges.at && u == ix.edges.at[e.edgeId].sourceId ==>
              Stored(WithEdge(ix, e), u) < Stored(ix, u) + if e.sourceId == u then 1 else 0
  {
    var before := ix.edges.Values();
    EntryAdded(ix, e, u);
    if e.edgeId in ix.edges.at {
      var i := EdgeReplaced(ix, e);
      ReplacedEdge(before, i, e, u);
    } else {
      EdgeAppended(ix, e);
      EdgesSnoc(before, e, u);
    }
  }

  lemma EdgeReplaced(ix: Index, e: TraceEdge) returns (i: nat)
    requires ix.Wf() && e.edgeId in ix.edges.at
    ensures i < |ix.edges.Values()| && ix.edges.Values()[i] == ix.edges.at[e.edgeId]
    ensures WithEdge(ix, e).edges.Values() == ix.edges.Values()[i := e]
  {
    i :| 0 <= i < |ix.edges.keys| && ix.edges.keys[i] == e.edgeId;
  }

  lemma EdgeAppended(ix: Index, e: TraceEdge)
    requires ix.Wf() && e.edgeId !in ix.edges.at
    ensures WithEdge(ix, e).edges.Values() == ix.edges.Values() + [e]
  {
  }

  lemma {:induction false} NeverTooFewEntries(nodeLog: seq<TraceNode>, edgeLog: seq<TraceEdge>, u: NodeId)
    ensures Stored(Replay(nodeLog, edgeLog), u) <= Listed(Replay(nodeLog, edgeLog), u)
    decreases |edgeLog|, |nodeLog|
  {
    if edgeLog != [] {
      NeverTooFewEntries(nodeLog, edgeLog[..|edgeLog| - 1], u);
      EdgeCounts(Replay(nodeLog, edgeLog[..|edgeLog| - 1]), edgeLog[|edgeLog| - 1], u);
    } else if nodeLog != [] {
      NeverTooFewEntries(nodeLog[..|nodeLog| - 1], [], u);
    }
  }

  /** A stale entry never goes away. */
  lemma StaleStays(ix: Index, e: TraceEdge)
    requires ix.Wf() && HasStaleEntry(ix)
    ensures HasStaleEntry(WithEdge(ix, e))
  {
    var u :| Stored(ix, u) < Listed(ix, u);
    EdgeCounts(ix, e, u);
  }

  lemma BecomesStale(ix: Index, e: TraceEdge)
    requires ix.Wf() && e.edgeId in ix.edges.at
    requires Stored(ix, ix.edges.at[e.edgeId].sourceId) <= Listed(ix, ix.edges.at[e.edgeId].sourceId)
    ensures HasStaleEntry(WithEdge(ix, e))
  {
    EdgeCounts(ix, e, ix.edges.at[e.edgeId].sourceId);
  }

  lemma {:induction false} RepeatedIdIsStale(nodeLog: seq<TraceNode>, edgeLog: seq<TraceEdge>)
    requires !NewIds(edgeLog)
    ensures HasStaleEntry(Replay(nodeLog, edgeLog))
  {
    var front, e := edgeLog[..|edgeLog| - 1], edgeLog[|edgeLog| - 1];
    var ix := Replay(nodeLog, front);
    assert edgeLog == front + [e];
    if NewIds(front) {
      NewIdsSnoc(front, e);
      EdgesStored(nodeLog, front);
      NeverTooFewEntries(nodeLog, front, ix.edges.at[e.edgeId].sourceId);
      BecomesStale(ix, e);
    } else {
      RepeatedIdIsStale(nodeLog, front);
      StaleStays(ix, e);
    }
  }

  lemma {:induction false} NoEdgesAgree(nodeLog: seq<TraceNode>)
    ensures Agrees(Replay(nodeLog, []))
  {
    if nodeLog == [] {
      assert forall u :: AgreesAt(EMPTY, [], u);
      assert EMPTY.edges.Values() == [];
    } else {
      NoEdgesAgree(nodeLog[..|nodeLog| - 1]);
      NodeKeepsAgreement(Replay(nodeLog[..|nodeLog| - 1], []), nodeLog[|nodeLog| - 1]);
    }
  }

  lemma {:induction false} NewIdsAgree(nodeLog: seq<TraceNode>, edgeLog: seq<TraceEdge>)
    requires NewIds(edgeLog)
    ensures Agrees(Replay(nodeLog, edgeLog))
  {
    if edgeLog == [] {
      NoEdgesAgree(nodeLog);
    } else {
      var front, e := edgeLog[..|edgeLog| - 1], edgeLog[|edgeLog| - 1];
      assert edgeLog == front + [e];
      NewIdsSnoc(front, e);
      NewIdsAgree(nodeLog, front);
      EdgesStored(nodeLog, front);
      NewEntry(Replay(nodeLog, front), e);
    }
  }

  /** After any history the indexes list exactly the stored edges, if and only if no edge id
      was added twice. */
  lemma AgreementIsExact(nodeLog: seq<TraceNode>, edgeLog: seq<TraceEdge>)
    ensures Agrees(Replay(nodeLog, edgeLog)) <==> NewIds(edgeLog)
  {
    var ix := Replay(nodeLog, edgeLog);
    if NewIds(edgeLog) {
      NewIdsAgree(nodeLog, edgeLog);
    } else {
      RepeatedIdIsStale(nodeLog, edgeLog);
      var u :| Stored(ix, u) < Listed(ix, u);
      assert !AgreesAt(ix, ix.edges.Values(), u);
    }
  }

  // ----- the store

  /** A line of a log: blank and malformed lines are skipped. */
  datatype Line<T> = Entry(value: T) | Skipped

  function Parsed<T>(log: seq<Line<T>>): seq<T> {
    if log == [] then []
    else Parsed(log[..|log| - 1]) + if log[|log| - 1].Entry? then [log[|log| - 1].value] else []
  }

  lemma ParsedSnoc<T>(log: seq<Line<T>>, line: Line<T>)
    ensures Parsed(log + [line]) == Parsed(log) + if line.Entry? then [line.value] else []
  {
    assert (log + [line])[..|log|] == log;
  }

  lemma ParsedNext<T>(log: seq<Line<T>>, i: nat)
    requires i < |log|
    ensures Parsed(log[..i + 1]) == Parsed(log[..i]) + if log[i].Entry? then [log[i].value] else []
  {
    assert log[..i + 1][..i] == log[..i];
  }

  class TraceStore {
    var nodes: Dict<NodeId, TraceNode>
    var edges: Dict<EdgeId, TraceEdge>
    var adjacency: Adjacency
    var reverseAdjacency: Adjacency
    var nodeLog: seq<Line<TraceNode>>
    var edgeLog: seq<Line<TraceEdge>>
    ghost var nodesSeen: seq<TraceNode>
    ghost var edgesSeen: seq<TraceEdge>

    function Ix(): Index
      reads this
    {
      Index(nodes, edges, adjacency, reverseAdjacency)
    }

    ghost predicate Valid()
      reads this
    {
      Ix() == Replay(nodesSeen, edgesSeen)
    }

    /** Every append to a log has succeeded so far. */
    ghost predicate LogsComplete()
      reads this
    {
      Parsed(nodeLog) == nodesSeen && Parsed(edgeLog) == edgesSeen
    }

    /** Opening a store reads its logs, whatever they hold. */
    constructor (nodeLog: seq<Line<TraceNode>>, edgeLog: seq<Line<TraceEdge>>)
      ensures Valid() && LogsComplete()
      ensures this.nodeLog == nodeLog && this.edgeLog == edgeLog
    {
      this.nodeLog, this.edgeLog := nodeLog, edgeLog;
      nodes, edges, adjacency, reverseAdjacency := Empty(), Empty(), map[], map[];
      nodesSeen, edgesSeen := [], [];
      new;
      LoadNodes();
      LoadEdges();
    }

    method LoadNodes()
      requires Valid() && nodesSeen == [] && edgesSeen == []
      modifies this`nodes, this`adjacency, this`reverseAdjacency, this`nodesSeen
      ensures Valid() && nodesSeen == Parsed(nodeLog)
    {
      for i := 0 to |nodeLog|
        invariant Valid() && nodesSeen == Parsed(nodeLog[..i])
      {
        ParsedNext(nodeLog, i);
        if nodeLog[i].Entry? {
          AbsorbNode(nodeLog[i].value);
        }
      }
      assert nodeLog[..|nodeLog|] == nodeLog;
    }

    method LoadEdges()
      requires Valid() && edgesSeen == []
      modifies this`edges, this`adjacency, this`reverseAdjacency, this`edgesSeen
      ensures Valid() && edgesSeen == Parsed(edgeLog)
    {
      for i := 0 to |edgeLog|
        invariant Valid() && edgesSeen == Parsed(edgeLog[..i])
      {
        ParsedNext(edgeLog, i);
        if edgeLog[i].Entry? {
          AbsorbEdge(edgeLog[i].value);
        }
      }
      assert edgeLog[..|edgeLog|] == edgeLog;
    }

    method EnsureEntries(id: NodeId)
      modifies this`adjacency, this`reverseAdjacency
      ensures adjacency == EnsureKey(old(adjacency), id) && reverseAdjacency == EnsureKey(old(reverseAdjacency), id)
    {
      if id !in adjacency {
        adjacency := adjacency[id := []];
      }
      if id !in reverseAdjacency {
        reverseAdjacency := reverseAdjacency[id := []];
      }
    }

    method AbsorbNode(n: TraceNode)
      requires Valid()
      modifies this`nodes, this`adjacency, this`reverseAdjacency, this`nodesSeen
      ensures Valid() && Ix() == WithNode(old(Ix()), n) && nodesSeen == old(nodesSeen) + [n]
    {
      nodes := nodes.Put(n.nodeId, n);
      EnsureEntries(n.nodeId);
      assert Ix() == WithNode(old(Ix()), n);
      ReplayMoreNodes(nodesSeen, edgesSeen, n);
      nodesSeen := nodesSeen + [n];
    }

    method AbsorbEdge(e: TraceEdge)
      requires Valid()
      modifies this`edges, this`adjacency, this`reverseAdjacency, this`edgesSeen
      ensures Valid() && Ix() == WithEdge(old(Ix()), e) && edgesSeen == old(edgesSeen) + [e]
    {
      edges := edges.Put(e.edgeId, e);
      adjacency := AppendTo(adjacency, e.sourceId, e.targetId);
      reverseAdjacency := AppendTo(reverseAdjacency, e.targetId, e.sourceId);
      ReplayMoreEdges(nodesSeen, edgesSeen, e);
      edgesSeen := edgesSeen + [e];
    }

    /** `add_node`; when the log cannot be written the node is kept in memory only. */
    method AddNode(n: TraceNode, writable: bool)
      requires Valid()
      modifies this
      ensures Valid() && Ix() == WithNode(old(Ix()), n) && edgesSeen == old(edgesSeen)
      ensures edgeLog == old(edgeLog) && nodeLog == if writable then old(nodeLog) + [Entry(n)] else old(nodeLog)
      ensures old(LogsComplete()) && writable ==> LogsComplete()
    {
      AbsorbNode(n);
      if writable {
        ParsedSnoc(nodeLog, Entry(n));
        nodeLog := nodeLog + [Entry(n)];
      }
    }

    method AddEdge(e: TraceEdge, writable: bool)
      requires Valid()
      modifies this
      ensures Valid() && Ix() == WithEdge(old(Ix()), e) && edgesSeen == old(edgesSeen) + [e]
      ensures nodeLog == old(nodeLog) && edgeLog == if writable then old(edgeLog) + [Entry(e)] else old(edgeLog)
      ensures old(LogsComplete()) && writable ==> LogsComplete()
    {
      AbsorbEdge(e);
      if writable {
        ParsedSnoc(edgeLog, Entry(e));
        edgeLog := edgeLog + [Entry(e)];
      }
    }

    /** While no append has failed, a store opened on the logs has the same state. */
    method Reopen() returns (copy: TraceStore)
      requires Valid() && LogsComplete()
      ensures fresh(copy) && copy.Valid() && copy.LogsComplete() && copy.Ix() == Ix()
    {
      copy := new TraceStore(nodeLog, edgeLog);
    }

    lemma StoredUnderItsId(n: TraceNode)
      requires Valid() && n in nodes.Values()
      ensures n.nodeId in nodes.at && nodes.at[n.nodeId] == n
      ensures UnderTheirIds(nodes.at)
    {
      NodesUnderTheirIds(nodesSeen, edgesSeen);
      var i :| 0 <= i < |nodes.keys| && nodes.Values()[i] == n;
      assert nodes.keys[i] in nodes.keys;
    }

    /** In every state, loaded or built up, the indexes list exactly the stored edges if and only
        if no edge id was ever added twice; while ids are new they keep doing so. */
    lemma IndexesAgreeExactly(e: TraceEdge)
      requires Valid()
      ensures Agrees(Ix()) <==> NewIds(edgesSeen)
      ensures Agrees(Ix()) ==> (Agrees(WithEdge(Ix(), e)) <==> e.edgeId !in edges.at)
      ensures forall n :: Agrees(Ix()) ==> Agrees(WithNode(Ix(), n))
    {
      AgreementIsExact(nodesSeen, edgesSeen);
      if Agrees(Ix()) {
        AgreementNeedsNewIds(Ix(), e);
        forall n
          ensures Agrees(WithNode(Ix(), n))
        {
          NodeKeepsAgreement(Ix(), n);
        }
      }
    }

    lemma Indexes()
      requires Valid()
      ensures Opposite(adjacency, reverseAdjacency)
    {
      IndexesAreOpposite(nodesSeen, edgesSeen);
    }
  }
}
