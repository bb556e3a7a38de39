/** Load metrics and the four ways of choosing a node, after loadbalancer/models.py and strategy.py. */
module Balancing {
  import opened Common
  import opened Dicts
  import opened Picking

  datatype Metric = Metric(node: string, cpu: real, memory: real, gpu: real, active: int, max: int, weight: real)

  function LoadScore(m: Metric): real {
    (m.cpu * 0.4 + m.memory * 0.3 + m.gpu * 0.3) * m.weight
  }

  function Capacity(m: Metric): real {
    if m.max <= 0 then 0.0
    else
      var free := 1.0 - m.active as real / m.max as real;
      if free > 0.0 then free else 0.0
  }

  predicate Overloaded(m: Metric) {
    LoadScore(m) > 80.0 || m.active >= m.max
  }

  /** The load is a weighted mean of the three percentages, scaled by the node's weight. */
  lemma LoadIsMean(m: Metric, lo: real, hi: real)
    requires lo <= m.cpu <= hi && lo <= m.memory <= hi && lo <= m.gpu <= hi && m.weight >= 0.0
    ensures lo * m.weight <= LoadScore(m) <= hi * m.weight
  {
    Scale(lo, m.cpu * 0.4 + m.memory * 0.3 + m.gpu * 0.3, m.weight);
    Scale(m.cpu * 0.4 + m.memory * 0.3 + m.gpu * 0.3, hi, m.weight);
  }

  /** What each percentage contributes: nothing at zero, and its share of the weight for every point more. */
  lemma LoadParts(m: Metric, more: real)
    ensures LoadScore(m.(cpu := m.cpu + more)) - LoadScore(m) == more * 0.4 * m.weight
    ensures LoadScore(m.(memory := m.memory + more)) - LoadScore(m) == more * 0.3 * m.weight
    ensures LoadScore(m.(gpu := m.gpu + more)) - LoadScore(m) == more * 0.3 * m.weight
    ensures m.cpu == m.memory == m.gpu == 0.0 ==> LoadScore(m) == 0.0
  {
    var load := m.cpu * 0.4 + m.memory * 0.3 + m.gpu * 0.3;
    Difference(load + more * 0.4, load, m.weight);
    Difference(load + more * 0.3, load, m.weight);
  }

  lemma Difference(x: real, y: real, w: real)
    ensures x * w - y * w == (x - y) * w
  {
  }

  lemma Scale(x: real, y: real, w: real)
    requires x <= y && w >= 0.0
    ensures x * w <= y * w
  {
    assert (y - x) * w >= 0.0;
  }

  /** The free share of a node lies between none and all, and a node is overloaded exactly when
      none is free or its load is above 80. */
  lemma CapacityMeaning(m: Metric)
    requires m.active >= 0
    ensures 0.0 <= Capacity(m) <= 1.0 && (Capacity(m) == 1.0 <==> m.active == 0 && m.max > 0)
    ensures Overloaded(m) <==> LoadScore(m) > 80.0 || Capacity(m) == 0.0
    ensures m.max > 0 ==> Capacity(m) * m.max as real == if m.active < m.max then (m.max - m.active) as real else 0.0
  {
    if m.max > 0 {
      var share := m.active as real / m.max as real;
      assert share * m.max as real == m.active as real;
      if share >= 1.0 {
        Scale(1.0, share, m.max as real);
      } else {
        Scale(share, 1.0, m.max as real);
      }
    }
  }

  function NotOverloaded(ms: seq<Metric>): seq<Metric> {
    if ms == [] then []
    else NotOverloaded(ms[..|ms| - 1]) + if Overloaded(ms[|ms| - 1]) then [] else [ms[|ms| - 1]]
  }

  function Eligible(ms: seq<Metric>): seq<Metric> {
    if NotOverloaded(ms) == [] then ms else NotOverloaded(ms)
  }

  /** The eligible nodes are those that are not overloaded, or all when all are. */
  lemma {:induction false} EligibleMeaning(ms: seq<Metric>)
    ensures forall m :: m in NotOverloaded(ms) <==> m in ms && !Overloaded(m)
    ensures forall m :: m in Eligible(ms) <==> m in ms && (Overloaded(m) ==> forall x <- ms :: Overloaded(x))
    ensures ms != [] ==> Eligible(ms) != []
    ensures Distinct(ms) ==> Distinct(Eligible(ms))
  {
    NotOverloadedMeaning(ms);
    if NotOverloaded(ms) != [] {
      assert NotOverloaded(ms)[0] in NotOverloaded(ms);
    }
  }

  lemma {:induction false} NotOverloadedMeaning(ms: seq<Metric>)
    ensures forall m :: m in NotOverloaded(ms) <==> m in ms && !Overloaded(m)
    ensures Distinct(ms) ==> Distinct(NotOverloaded(ms))
  {
    if ms != [] {
      var front, last := ms[..|ms| - 1], ms[|ms| - 1];
      NotOverloadedMeaning(front);
      assert ms == front + [last];
      assert Distinct(ms) ==> last !in front && Distinct(front);
    }
  }

  function IfFree(): Metric -> Option<Metric> {
    (m: Metric) => if Overloaded(m) then None else Some(m)
  }

  lemma {:induction false} NotOverloadedPicks(ms: seq<Metric>)
    ensures Picks(ms, IfFree(), NotOverloaded(ms))
  {
    if ms == [] {
      NothingPicked(ms, IfFree());
    } else {
      NotOverloadedPicks(ms[..|ms| - 1]);
      PickLast(ms, IfFree(), NotOverloaded(ms[..|ms| - 1]));
    }
  }

  // ----- the first best, as min and max with a key find it

  function FirstBest(s: seq<Metric>, score: Metric -> real): Metric
    requires s != []
  {
    if |s| == 1 then s[0]
    else
      var rest := FirstBest(s[1..], score);
      if score(rest) > score(s[0]) then rest else s[0]
  }

  /** `s[i]` scores highest, and nothing before it scores as high. */
  ghost predicate IsFirstBest(s: seq<Metric>, score: Metric -> real, i: int) {
    && 0 <= i < |s|
    && (forall j :: 0 <= j < |s| ==> score(s[j]) <= score(s[i]))
    && (forall j :: 0 <= j < i ==> score(s[j]) < score(s[i]))
  }

  lemma {:induction false} FirstBestMeaning(s: seq<Metric>, score: Metric -> real)
    requires s != []
    ensures exists i :: IsFirstBest(s, score, i) && s[i] == FirstBest(s, score)
  {
    if |s| == 1 {
      assert IsFirstBest(s, score, 0);
    } else {
      FirstBestMeaning(s[1..], score);
      var k :| IsFirstBest(s[1..], score, k) && s[1..][k] == FirstBest(s[1..], score);
      var i := if score(s[k + 1]) > score(s[0]) then k + 1 else 0;
      forall j | 0 <= j < |s|
        ensures score(s[j]) <= score(s[i]) && (j < i ==> score(s[j]) < score(s[i]))
      {
        if j > 0 {
          assert s[1..][j - 1] == s[j];
        }
      }
      assert IsFirstBest(s, score, i) && s[i] == FirstBest(s, score);
    }
  }

  function Idleness(): Metric -> real {
    (m: Metric) => -LoadScore(m)
  }

  function WeightedCapacity(): Metric -> real {
    (m: Metric) => Capacity(m) * m.weight
  }

  function Weight(): Metric -> real {
    (m: Metric) => m.weight
  }

  function LeastLoaded(ms: seq<Metric>): Metric
    requires ms != []
  {
    FirstBest(if NotOverloaded(ms) == [] then ms else NotOverloaded(ms), Idleness())
  }

  function HeaviestFree(ms: seq<Metric>): Metric
    requires ms != []
  {
    if NotOverloaded(ms) == [] then FirstBest(ms, Weight()) else FirstBest(NotOverloaded(ms), WeightedCapacity())
  }

  // ----- the node that least-loaded and weighted selection take

  ghost predicate AllOverloaded(ms: seq<Metric>) {
    forall m <- ms :: Overloaded(m)
  }

  /** Only a node that is not overloaded may serve, unless all are. */
  ghost predicate MayServe(ms: seq<Metric>, i: int) {
    0 <= i < |ms| && (Overloaded(ms[i]) ==> AllOverloaded(ms))
  }

  /** The first of those with the least load. */
  ghost predicate FirstLeast(ms: seq<Metric>, i: int) {
    && MayServe(ms, i)
    && forall j :: MayServe(ms, j) ==>
                     LoadScore(ms[i]) <= LoadScore(ms[j]) && (j < i ==> LoadScore(ms[i]) < LoadScore(ms[j]))
  }

  /** What counts in weighted selection: the free share times the weight, or the weight when no node is free. */
  function Worth(m: Metric, noneFree: bool): real {
    if noneFree then m.weight else Capacity(m) * m.weight
  }

  /** The first of those that are worth most. */
  ghost predicate FirstWorthiest(ms: seq<Metric>, i: int) {
    && MayServe(ms, i)
    && forall j :: MayServe(ms, j) ==>
                     && Worth(ms[j], AllOverloaded(ms)) <= Worth(ms[i], AllOverloaded(ms))
                     && (j < i ==> Worth(ms[j], AllOverloaded(ms)) < Worth(ms[i], AllOverloaded(ms)))
  }

  ghost predicate IsLeastLoaded(ms: seq<Metric>, m: Metric) {
    exists i :: FirstLeast(ms, i) && ms[i] == m
  }

  ghost predicate IsWorthiest(ms: seq<Metric>, m: Metric) {
    exists i :: FirstWorthiest(ms, i) && ms[i] == m
  }

  ghost predicate NoBetter(ms: seq<Metric>, score: Metric -> real, i: int, j: int)
    requires 0 <= i < |ms| && 0 <= j < |ms|
  {
    score(ms[j]) <= score(ms[i]) && (j < i ==> score(ms[j]) < score(ms[i]))
  }

  lemma FreeIsNoBetter(ms: seq<Metric>, free: seq<Metric>, at: seq<int>, score: Metric -> real, k: int, j: int)
    requires PositionsOf(ms, IfFree(), at) && ValuesAt(ms, IfFree(), free, at)
    requires IsFirstBest(free, score, k) && 0 <= j < |ms| && !Overloaded(ms[j])
    ensures 0 <= at[k] < |ms| && ms[at[k]] == free[k] && NoBetter(ms, score, at[k], j)
  {
    var l := PickedAt(ms, IfFree(), free, at, j);
    assert IfFree()(ms[at[k]]) == Some(free[k]);
    assert j < at[k] ==> l < k;
  }

  lemma BestFree(ms: seq<Metric>, score: Metric -> real) returns (i: int)
    requires NotOverloaded(ms) != []
    ensures 0 <= i < |ms| && !Overloaded(ms[i]) && ms[i] == FirstBest(NotOverloaded(ms), score)
    ensures forall j :: 0 <= j < |ms| && !Overloaded(ms[j]) ==> NoBetter(ms, score, i, j)
  {
    var free := NotOverloaded(ms);
    NotOverloadedPicks(ms);
    var at :| PositionsOf(ms, IfFree(), at) && ValuesAt(ms, IfFree(), free, at);
    FirstBestMeaning(free, score);
    var k :| IsFirstBest(free, score, k) && free[k] == FirstBest(free, score);
    i := at[k];
    assert IfFree()(ms[i]) == Some(free[k]);
    forall j | 0 <= j < |ms| && !Overloaded(ms[j])
      ensures NoBetter(ms, score, i, j)
    {
      FreeIsNoBetter(ms, free, at, score, k, j);
    }
  }

  lemma NoneFree(ms: seq<Metric>)
    ensures NotOverloaded(ms) == [] <==> AllOverloaded(ms)
  {
    NotOverloadedMeaning(ms);
    if NotOverloaded(ms) != [] {
      assert NotOverloaded(ms)[0] in NotOverloaded(ms);
    }
  }

  /** The best by any score among those that may serve. */
  lemma BestServing(ms: seq<Metric>, score: Metric -> real) returns (i: int)
    requires ms != []
    ensures MayServe(ms, i) && ms[i] == FirstBest(Eligible(ms), score)
    ensures forall j :: MayServe(ms, j) ==> NoBetter(ms, score, i, j)
  {
    NoneFree(ms);
    if NotOverloaded(ms) == [] {
      FirstBestMeaning(ms, score);
      i :| IsFirstBest(ms, score, i) && ms[i] == FirstBest(ms, score);
    } else {
      i := BestFree(ms, score);
    }
  }

  /**
   Least-loaded selection takes the first of those with the least load, and weighted selection the
   first of those with the greatest free share times weight, or the greatest weight if none is free.
   */
  lemma ChosenIsBest(ms: seq<Metric>)
    requires ms != []
    ensures IsLeastLoaded(ms, LeastLoaded(ms)) && IsWorthiest(ms, HeaviestFree(ms))
  {
    NoneFree(ms);
    var i := BestServing(ms, Idleness());
    assert forall j :: MayServe(ms, j) ==> Idleness()(ms[j]) == -LoadScore(ms[j]);
    assert FirstLeast(ms, i);
    var score := if NotOverloaded(ms) == [] then Weight() else WeightedCapacity();
    var k := BestServing(ms, score);
    assert forall j :: MayServe(ms, j) ==> score(ms[j]) == Worth(ms[j], AllOverloaded(ms));
    assert FirstWorthiest(ms, k);
  }

  // ----- strategy objects

  datatype Mode = RoundRobinMode | LeastLoadedMode | WeightedMode | AffinityMode

  /**
   The object that was made for a mode, with what it remembers: the cycle keeps the nodes, the
   metrics they had and its position; the affinities keep the node of each session.
   */
  datatype Strategy =
    | Cycle(ids: seq<string>, nodes: seq<Metric>, at: nat)
    | Least
    | Weighted
    | Affinity(nodeOf: map<string, string>)

  function NewStrategy(mode: Mode): Strategy {
    match mode
    case RoundRobinMode => Cycle([], [], 0)
    case LeastLoadedMode => Least
    case WeightedMode => Weighted
    case AffinityMode => Affinity(map[])
  }

  function Ids(ms: seq<Metric>): seq<string> {
    seq(|ms|, i requires 0 <= i < |ms| => ms[i].node)
  }

  function FirstAt(ms: seq<Metric>, node: string): Option<Metric> {
    if ms == [] then None else if ms[0].node == node then Some(ms[0]) else FirstAt(ms[1..], node)
  }

  /** `m` is the first metric of the node. */
  ghost predicate IsFirstOf(ms: seq<Metric>, node: string, m: Metric) {
    exists i :: 0 <= i < |ms| && ms[i] == m && m.node == node && forall j :: 0 <= j < i ==> ms[j].node != node
  }

  lemma {:induction false} FirstAtMeaning(ms: seq<Metric>, node: string)
    ensures FirstAt(ms, node).Some? ==> FirstAt(ms, node).value in ms && IsFirstOf(ms, node, FirstAt(ms, node).value)
    ensures FirstAt(ms, node).None? ==> forall m <- ms :: m.node != node
  {
    if ms != [] {
      FirstAtMeaning(ms[1..], node);
      assert ms == [ms[0]] + ms[1..];
      if ms[0].node == node {
        assert IsFirstOf(ms, node, ms[0]);
      } else if FirstAt(ms, node).Some? {
        var m := FirstAt(ms, node).value;
        var k :| 0 <= k < |ms[1..]| && ms[1..][k] == m && forall j :: 0 <= j < k ==> ms[1..][j].node != node;
        assert forall j :: 0 < j <= k ==> ms[j] == ms[1..][j - 1];
        assert ms[k + 1] == m;
      }
    }
  }

  function InTurn(ms: seq<Metric>, turn: nat): Metric
    requires ms != []
  {
    ms[turn % |ms|]
  }

  /** The cycle starts anew when the nodes differ, and else goes on with the metrics it started with. */
  function NextInCycle(s: Strategy, ms: seq<Metric>): (Metric, Strategy)
    requires s.Cycle? && ms != []
  {
    var c := if s.ids != Ids(ms) || s.nodes == [] then Cycle(Ids(ms), ms, 0) else s;
    (InTurn(c.nodes, c.at), c.(at := c.at + 1))
  }

  function SelectFor(s: Strategy, ms: seq<Metric>, session: string): (Metric, Strategy)
    requires s.Affinity? && ms != []
  {
    var known := if session != "" && session in s.nodeOf then FirstAt(ms, s.nodeOf[session]) else None;
    if known.Some? && !Overloaded(known.value) then (known.value, s)
    else
      var m := LeastLoaded(ms);
      (m, if session != "" then Affinity(s.nodeOf[session := m.node]) else s)
  }

  /** What `select_node` does to the strategy and the round-robin index, and which metric it picks. */
  datatype Choice = Choice(metric: Metric, strategy: Strategy, rr: nat)

  function Choose(mode: Mode, s: Strategy, rr: nat, ms: seq<Metric>, session: string): Choice
    requires ms != []
  {
    if mode.AffinityMode? && s.Affinity? then
      var (m, s1) := SelectFor(s, ms, session);
      Choice(m, s1, rr)
    else if mode.RoundRobinMode? then
      EligibleMeaning(ms);
      Choice(InTurn(Eligible(ms), rr), s, rr + 1)
    else
      match s
      case Cycle(_, _, _) =>
        var (m, s1) := NextInCycle(s, ms);
        Choice(m, s1, rr)
      case Least => Choice(LeastLoaded(ms), s, rr)
      case Weighted => Choice(HeaviestFree(ms), s, rr)
      case Affinity(_) =>
        var (m, s1) := SelectFor(s, ms, "");
        Choice(m, s1, rr)
  }

  // ----- what is chosen and what is remembered

  /** The node that this session had, if it is still there and not overloaded. */
  ghost predicate StillGood(s: Strategy, ms: seq<Metric>, session: string, m: Metric)
    requires s.Affinity?
  {
    session != "" && session in s.nodeOf && IsFirstOf(ms, s.nodeOf[session], m) && !Overloaded(m)
  }

  ghost predicate KeepsOrLeast(s: Strategy, ms: seq<Metric>, session: string, m: Metric)
    requires s.Affinity?
  {
    StillGood(s, ms, session, m) || (!(exists x <- ms :: StillGood(s, ms, session, x)) && IsLeastLoaded(ms, m))
  }

  /** `m` stands at position `turn`, counted round and round, of the nodes that may serve. */
  ghost predicate IsInTurn(ms: seq<Metric>, turn: nat, m: Metric) {
    exists at: seq<int> :: at != [] && ServingAt(ms, at) && 0 <= at[turn % |at|] < |ms| && m == ms[at[turn % |at|]]
  }

  ghost predicate ServingAt(ms: seq<Metric>, at: seq<int>) {
    Ascending(at) && forall i :: MayServe(ms, i) <==> i in at
  }

  /** The next of the metrics that the cycle started with, which are the given ones if other nodes are given. */
  ghost predicate GoesRound(s: Strategy, ms: seq<Metric>, m: Metric)
    requires s.Cycle?
  {
    if s.nodes != [] && |ms| == |s.ids| && (forall i :: 0 <= i < |ms| ==> ms[i].node == s.ids[i])
    then m == s.nodes[s.at % |s.nodes|]
    else ms != [] && m == ms[0]
  }

  ghost predicate RightChoice(mode: Mode, s: Strategy, rr: nat, ms: seq<Metric>, session: string, m: Metric) {
    if mode.RoundRobinMode? then IsInTurn(ms, rr, m)
    else
      match s
      case Cycle(_, _, _) => GoesRound(s, ms, m)
      case Least => IsLeastLoaded(ms, m)
      case Weighted => IsWorthiest(ms, m)
      case Affinity(_) => if mode.AffinityMode? then KeepsOrLeast(s, ms, session, m) else IsLeastLoaded(ms, m)
  }

  lemma SelectForIsRight(s: Strategy, ms: seq<Metric>, session: string)
    requires s.Affinity? && ms != []
    ensures KeepsOrLeast(s, ms, session, SelectFor(s, ms, session).0)
    ensures SelectFor(s, ms, "").0 == LeastLoaded(ms)
  {
    ChosenIsBest(ms);
    if session != "" && session in s.nodeOf {
      var node := s.nodeOf[session];
      FirstAtMeaning(ms, node);
      forall x <- ms | StillGood(s, ms, session, x)
        ensures FirstAt(ms, node) == Some(x)
      {
        FirstIsOne(ms, node, x);
      }
    }
  }

  lemma FirstIsOne(ms: seq<Metric>, node: string, m: Metric)
    requires IsFirstOf(ms, node, m)
    ensures FirstAt(ms, node) == Some(m)
  {
    FirstAtMeaning(ms, node);
    var i :| 0 <= i < |ms| && ms[i] == m && m.node == node && forall j :: 0 <= j < i ==> ms[j].node != node;
    var x := FirstAt(ms, node).value;
    var k :| 0 <= k < |ms| && ms[k] == x && x.node == node && forall j :: 0 <= j < k ==> ms[j].node != node;
  }

  function Everywhere(n: nat): (at: seq<int>)
    ensures |at| == n && forall i :: 0 <= i < n ==> at[i] == i
  {
    seq(n, i => i)
  }

  lemma AllServe(ms: seq<Metric>)
    requires AllOverloaded(ms)
    ensures ServingAt(ms, Everywhere(|ms|))
  {
    forall i
      ensures MayServe(ms, i) <==> i in Everywhere(|ms|)
    {
      if 0 <= i < |ms| {
        assert Everywhere(|ms|)[i] == i;
      }
    }
  }

  lemma FreeServe(ms: seq<Metric>, at: seq<int>)
    requires PositionsOf(ms, IfFree(), at) && !AllOverloaded(ms)
    ensures ServingAt(ms, at)
  {
    forall i
      ensures MayServe(ms, i) <==> i in at
    {
      if 0 <= i < |ms| {
        assert IfFree()(ms[i]).Some? <==> MayServe(ms, i);
      }
    }
  }

  ghost predicate StandAt(ms: seq<Metric>, at: seq<int>, xs: seq<Metric>) {
    |xs| == |at| && forall k :: 0 <= k < |at| ==> 0 <= at[k] < |ms| && ms[at[k]] == xs[k]
  }

  lemma TurnAmong(ms: seq<Metric>, at: seq<int>, xs: seq<Metric>, turn: nat)
    requires xs != [] && StandAt(ms, at, xs) && ServingAt(ms, at)
    ensures IsInTurn(ms, turn, InTurn(xs, turn))
  {
    var k := turn % |xs|;
    assert 0 <= k < |at|;
  }

  lemma TurnIsRight(ms: seq<Metric>, turn: nat)
    requires ms != []
    ensures Eligible(ms) != [] && IsInTurn(ms, turn, InTurn(Eligible(ms), turn))
  {
    NoneFree(ms);
    if NotOverloaded(ms) == [] {
      AllServe(ms);
      TurnAmong(ms, Everywhere(|ms|), ms, turn);
    } else {
      NotOverloadedPicks(ms);
      FreeTurn(ms, NotOverloaded(ms), turn);
    }
  }

  lemma FreeTurn(ms: seq<Metric>, free: seq<Metric>, turn: nat)
    requires free != [] && !AllOverloaded(ms) && Picks(ms, IfFree(), free)
    ensures IsInTurn(ms, turn, InTurn(free, turn))
  {
    var at :| PositionsOf(ms, IfFree(), at) && ValuesAt(ms, IfFree(), free, at);
    FreeServe(ms, at);
    forall k | 0 <= k < |at|
      ensures 0 <= at[k] < |ms| && ms[at[k]] == free[k]
    {
      assert IfFree()(ms[at[k]]) == Some(free[k]);
    }
    TurnAmong(ms, at, free, turn);
  }

  lemma CycleIsRight(s: Strategy, ms: seq<Metric>)
    requires s.Cycle? && ms != []
    ensures GoesRound(s, ms, NextInCycle(s, ms).0)
  {
    if s.nodes != [] && |ms| == |s.ids| && (forall i :: 0 <= i < |ms| ==> ms[i].node == s.ids[i]) {
      assert Ids(ms) == s.ids;
    } else if s.ids == Ids(ms) {
      assert forall i :: 0 <= i < |ms| ==> Ids(ms)[i] == ms[i].node;
    }
  }

  /** In every mode and for every strategy object the right node is chosen. */
  lemma ChoiceIsRight(mode: Mode, s: Strategy, rr: nat, ms: seq<Metric>, session: string)
    requires ms != []
    ensures RightChoice(mode, s, rr, ms, session, Choose(mode, s, rr, ms, session).metric)
  {
    TurnIsRight(ms, rr);
    ChosenIsBest(ms);
    if s.Affinity? {
      SelectForIsRight(s, ms, session);
    } else if s.Cycle? {
      CycleIsRight(s, ms);
    }
  }

  /** The index moves on by one in round-robin mode and else not at all; affinity remembers the chosen
      node of a named session, and no other strategy but the cycle remembers anything. */
  lemma ChoiceIsRemembered(mode: Mode, s: Strategy, rr: nat, ms: seq<Metric>, session: string)
    requires ms != []
    ensures var c := Choose(mode, s, rr, ms, session);
            && c.rr == rr + (if mode.RoundRobinMode? then 1 else 0)
            && (s.Affinity? && mode.AffinityMode? && session != "" ==>
                  c.strategy == Affinity(s.nodeOf[session := c.metric.node]))
            && ((s.Affinity? && (!mode.AffinityMode? || session == "")) || s.Least? || s.Weighted? ==> c.strategy == s)
            && (s.Cycle? ==> c.strategy == if mode.RoundRobinMode? then s else NextInCycle(s, ms).1)
  {
    if s.Affinity? && session in s.nodeOf {
      FirstAtMeaning(ms, s.nodeOf[session]);
      assert s.nodeOf[session := s.nodeOf[session]] == s.nodeOf;
    }
  }

  /** The cycle after it has been given these lists of metrics, one after the other. */
  function Cycled(s: Strategy, given: seq<seq<Metric>>): (s': Strategy)
    requires s.Cycle? && forall i :: 0 <= i < |given| ==> given[i] != []
    ensures s'.Cycle?
  {
    if given == [] then s
    else NextInCycle(Cycled(s, given[..|given| - 1]), given[|given| - 1]).1
  }

  /** Once the nodes have changed, and while they stay the same, the n-th call after the change gives the
      n-th of the metrics it started with, round and round: the load of the moment plays no part. */
  lemma {:induction false} CycleGoesRound(s: Strategy, given: seq<seq<Metric>>, now: seq<Metric>)
    requires s.Cycle? && given != [] && forall i :: 0 <= i < |given| ==> given[i] != [] && Ids(given[i]) == Ids(now)
    requires s.ids != Ids(now) || s.nodes == []
    ensures now != [] && NextInCycle(Cycled(s, given), now).0 == given[0][|given| % |given[0]|]
    ensures Cycled(s, given) == Cycle(Ids(now), given[0], |given|)
  {
    var n := |given| - 1;
    assert |Ids(now)| == |now| && |Ids(given[n])| == |given[n]|;
    if n == 0 {
      assert given[..0] == [];
    } else {
      CycleGoesRound(s, given[..n], now);
    }
  }

  // ----- no overloaded node while another is free

  ghost predicate Balanced(mode: Mode, s: Strategy, rr: nat, ms: seq<Metric>, session: string) {
    ms != [] ==> GoodPick(ms, Choose(mode, s, rr, ms, session).metric)
  }

  lemma ChoiceIsBalanced(mode: Mode, s: Strategy, rr: nat, ms: seq<Metric>, session: string)
    requires mode.RoundRobinMode? || !s.Cycle?
    ensures Balanced(mode, s, rr, ms, session)
  {
    if ms != [] {
      FromEligible(ms);
      if s.Affinity? {
        AffinityIsBalanced(s, ms, session);
        AffinityIsBalanced(s, ms, "");
      }
    }
  }

  /** A pick that does not leave a free node aside. */
  ghost predicate GoodPick(ms: seq<Metric>, m: Metric) {
    m in ms && (Overloaded(m) ==> forall x <- ms :: Overloaded(x))
  }

  lemma ServingIsGood(ms: seq<Metric>, m: Metric)
    requires ms != []
    ensures IsLeastLoaded(ms, m) ==> GoodPick(ms, m)
    ensures IsWorthiest(ms, m) ==> GoodPick(ms, m)
    ensures m in Eligible(ms) ==> GoodPick(ms, m)
  {
    EligibleMeaning(ms);
  }

  lemma FromEligible(ms: seq<Metric>)
    requires ms != []
    ensures GoodPick(ms, LeastLoaded(ms)) && GoodPick(ms, HeaviestFree(ms))
    ensures Eligible(ms) != [] && forall turn: nat :: GoodPick(ms, InTurn(Eligible(ms), turn))
  {
    ChosenIsBest(ms);
    ServingIsGood(ms, LeastLoaded(ms));
    ServingIsGood(ms, HeaviestFree(ms));
    EligibleIsSome(ms);
    forall turn: nat
      ensures GoodPick(ms, InTurn(Eligible(ms), turn))
    {
      ServingIsGood(ms, InTurn(Eligible(ms), turn));
    }
  }

  lemma EligibleIsSome(ms: seq<Metric>)
    requires ms != []
    ensures Eligible(ms) != [] && forall turn: nat :: InTurn(Eligible(ms), turn) in Eligible(ms)
  {
  }

  lemma AffinityIsBalanced(s: Strategy, ms: seq<Metric>, session: string)
    requires s.Affinity? && ms != []
    ensures GoodPick(ms, SelectFor(s, ms, session).0)
  {
    FromEligible(ms);
    if session in s.nodeOf {
      FirstAtMeaning(ms, s.nodeOf[session]);
    }
  }

  function Node(name: string, active: int): Metric {
    Metric(name, 0.0, 0.0, 0.0, active, 4, 1.0)
  }

  lemma NodeLoad(name: string)
    ensures Overloaded(Node(name, 4)) && !Overloaded(Node(name, 0))
  {
    assert LoadScore(Node(name, 0)) == 0.0;
  }

  /** A busy and an idle node whose names the cycle does not know yet. */
  function BusyFirst(known: seq<string>): seq<Metric> {
    [Node(if known != [] && known[0] == "a" then "c" else "a", 4), Node("b", 0)]
  }

  lemma CycleStartsAnew(s: Strategy)
    requires s.Cycle?
    ensures NextInCycle(s, BusyFirst(s.ids)).0 == BusyFirst(s.ids)[0]
  {
    assert Ids(BusyFirst(s.ids))[0] == BusyFirst(s.ids)[0].node;
    assert "a" != "c";
  }

  lemma CycleIgnoresLoad(mode: Mode, s: Strategy, rr: nat)
    requires !mode.RoundRobinMode? && s.Cycle?
    ensures !Balanced(mode, s, rr, BusyFirst(s.ids), "")
  {
    var ms := BusyFirst(s.ids);
    CycleStartsAnew(s);
    NodeLoad(ms[0].node);
    NodeLoad("b");
    assert ms[1] in ms;
  }

  /**
   Whatever the load, an overloaded node is chosen only when all are: exactly unless a cycle,
   made for the round-robin mode, is used in another mode.
   */
  lemma BalancedExactly(mode: Mode, s: Strategy)
    ensures (forall rr: nat, ms, session :: Balanced(mode, s, rr, ms, session))
            <==> mode.RoundRobinMode? || !s.Cycle?
  {
    if mode.RoundRobinMode? || !s.Cycle? {
      forall rr: nat, ms, session
        ensures Balanced(mode, s, rr, ms, session)
      {
        ChoiceIsBalanced(mode, s, rr, ms, session);
      }
    } else {
      CycleIgnoresLoad(mode, s, 0);
    }
  }

  /** A session stays on its node for as long as that node is there and not overloaded. */
  lemma SessionsStick(s: Strategy, rr: nat, ms: seq<Metric>, session: string, later: seq<Metric>)
    requires s.Affinity? && session != "" && ms != [] && later != []
    ensures var first := Choose(AffinityMode, s, rr, ms, session);
            var again := FirstAt(later, first.metric.node);
            again.Some? && !Overloaded(again.value) ==>
              Choose(AffinityMode, first.strategy, rr, later, session).metric == again.value
  {
    if session in s.nodeOf {
      FirstAtMeaning(ms, s.nodeOf[session]);
    }
  }

  // ----- round robin is fair

  function Dealt(eligible: seq<Metric>, rr: nat, n: nat): seq<Metric>
    requires eligible != []
  {
    if n == 0 then [] else Dealt(eligible, rr, n - 1) + [InTurn(eligible, rr + n - 1)]
  }

  /** How many numbers below x leave remainder i modulo k. */
  function Below(x: nat, k: nat, i: nat): nat
    requires 0 < k
  {
    x / k + if x % k > i then 1 else 0
  }

  lemma MultipleOf(k: int, d: int)
    requires 0 < k
    ensures d >= 1 ==> k * d >= k
    ensures d <= -1 ==> k * d <= -k
  {
  }

  lemma DivMod(x: int, k: int, q: int, m: int)
    requires 0 < k && 0 <= m < k && x == k * q + m
    ensures x / k == q && x % k == m
  {
    var d := x / k - q;
    assert x == k * (x / k) + x % k;
    assert k * (x / k) == k * q + k * d;
    MultipleOf(k, d);
  }

  lemma BelowAt(x: nat, k: nat, q: nat, m: nat, i: nat)
    requires 0 < k && m < k && x == k * q + m
    ensures Below(x, k, i) == q + if m > i then 1 else 0
  {
    DivMod(x, k, q, m);
  }

  lemma BelowSum(x: nat, n: nat, k: nat, q: nat, m: nat, a: nat, b: nat, i: nat)
    requires 0 < k && m < k && b < k && x == k * q + m && n == k * a + b
    ensures Below(x + n, k, i)
            == q + a + if m + b < k then (if m + b > i then 1 else 0) else 1 + if m + b - k > i then 1 else 0
  {
    assert k * (q + a) == k * q + k * a;
    if m + b < k {
      BelowAt(x + n, k, q + a, m + b, i);
    } else {
      assert k * (q + a + 1) == k * (q + a) + k;
      BelowAt(x + n, k, q + a + 1, m + b - k, i);
    }
  }

  lemma RoundedUp(n: nat, k: nat, a: nat, b: nat)
    requires 0 < k && b < k && n == k * a + b
    ensures (n + k - 1) / k == a + if b > 0 then 1 else 0
  {
    assert k * (a + 1) == k * a + k;
    if b == 0 {
      DivMod(n + k - 1, k, a, k - 1);
    } else {
      DivMod(n + k - 1, k, a + 1, b - 1);
    }
  }

  lemma Quotient(x: nat, k: nat) returns (q: nat, m: nat)
    requires 0 < k
    ensures m < k && x == k * q + m && q == x / k && m == x % k
  {
    q, m := x / k, x % k;
  }

  lemma BelowNext(x: nat, k: nat, i: nat)
    requires 0 < k && i < k
    ensures Below(x + 1, k, i) == Below(x, k, i) + if x % k == i then 1 else 0
  {
    var q, m := Quotient(x, k);
    BelowAt(x, k, q, m, i);
    if m + 1 < k {
      BelowAt(x + 1, k, q, m + 1, i);
    } else {
      assert k * (q + 1) == k * q + k;
      BelowAt(x + 1, k, q + 1, 0, i);
    }
  }

  lemma BelowIsEven(x: nat, n: nat, k: nat, i: nat)
    requires 0 < k && i < k
    ensures n / k <= Below(x + n, k, i) - Below(x, k, i) <= (n + k - 1) / k
  {
    var q, m := Quotient(x, k);
    var a, b := Quotient(n, k);
    BelowAt(x, k, q, m, i);
    BelowSum(x, n, k, q, m, a, b, i);
    RoundedUp(n, k, a, b);
  }

  ghost predicate CountIs(eligible: seq<Metric>, rr: nat, n: nat, i: nat)
    requires i < |eligible|
  {
    multiset(Dealt(eligible, rr, n))[eligible[i]] == Below(rr + n, |eligible|, i) - Below(rr, |eligible|, i)
  }

  lemma PickedNext(eligible: seq<Metric>, rr: nat, n: nat, i: nat)
    requires Distinct(eligible) && i < |eligible| && CountIs(eligible, rr, n, i)
    ensures CountIs(eligible, rr, n + 1, i)
  {
    BelowNext(rr + n, |eligible|, i);
    var j := (rr + n) % |eligible|;
    assert 0 <= j < |eligible|;
    assert Dealt(eligible, rr, n + 1) == Dealt(eligible, rr, n) + [eligible[j]];
    assert eligible[j] == eligible[i] <==> j == i;
  }

  lemma {:induction false} PicksCount(eligible: seq<Metric>, rr: nat, n: nat, i: nat)
    requires Distinct(eligible) && i < |eligible|
    ensures CountIs(eligible, rr, n, i)
  {
    if n > 0 {
      PicksCount(eligible, rr, n - 1, i);
      PickedNext(eligible, rr, n - 1, i);
    }
  }

  /** Serving one session after the other while the metrics stay the same. */
  datatype Served = Served(strategy: Strategy, rr: nat, picked: seq<Metric>)

  function Serve(mode: Mode, s: Strategy, rr: nat, ms: seq<Metric>, sessions: seq<string>): Served
    requires ms != []
  {
    if sessions == [] then Served(s, rr, [])
    else
      var before := Serve(mode, s, rr, ms, sessions[..|sessions| - 1]);
      var c := Choose(mode, before.strategy, before.rr, ms, sessions[|sessions| - 1]);
      Served(c.strategy, c.rr, before.picked + [c.metric])
  }

  lemma NextServed(s: Strategy, rr: nat, ms: seq<Metric>, session: string)
    requires ms != []
    ensures Eligible(ms) != []
    ensures Choose(RoundRobinMode, s, rr, ms, session) == Choice(InTurn(Eligible(ms), rr), s, rr + 1)
  {
    EligibleMeaning(ms);
  }

  /** What n sessions in a row lead to. */
  ghost function Turns(s: Strategy, rr: nat, eligible: seq<Metric>, n: nat): Served
    requires eligible != []
  {
    Served(s, rr + n, Dealt(eligible, rr, n))
  }

  lemma {:induction false} ServesInTurn(s: Strategy, rr: nat, ms: seq<Metric>, sessions: seq<string>)
    requires ms != [] && Eligible(ms) != []
    ensures Serve(RoundRobinMode, s, rr, ms, sessions) == Turns(s, rr, Eligible(ms), |sessions|)
  {
    if sessions != [] {
      var n := |sessions| - 1;
      ServesInTurn(s, rr, ms, sessions[..n]);
      NextServed(s, rr + n, ms, sessions[n]);
      NextTurns(s, rr, Eligible(ms), n);
    }
  }

  lemma NextTurns(s: Strategy, rr: nat, eligible: seq<Metric>, n: nat)
    requires eligible != []
    ensures Turns(s, rr, eligible, n + 1)
            == Served(s, rr + n + 1, Turns(s, rr, eligible, n).picked + [InTurn(eligible, rr + n)])
  {
  }

  ghost predicate FairShare(eligible: seq<Metric>, picked: seq<Metric>, m: Metric)
    requires eligible != []
  {
    var n, k, share := |picked|, |eligible|, multiset(picked)[m];
    if m in eligible then n / k <= share <= (n + k - 1) / k else share == 0
  }

  lemma PicksAreFair(eligible: seq<Metric>, rr: nat, n: nat, m: Metric)
    requires eligible != [] && Distinct(eligible)
    ensures FairShare(eligible, Dealt(eligible, rr, n), m)
  {
    PicksAreEligible(eligible, rr, n);
    if m in eligible {
      var i :| 0 <= i < |eligible| && eligible[i] == m;
      PicksCount(eligible, rr, n, i);
      BelowIsEven(rr, n, |eligible|, i);
    }
  }

  /**
   Of n sessions served in a row, from whatever index, each of the k eligible nodes gets n / k,
   rounded down or up, and no other node gets any.
   */
  lemma RoundRobinIsFair(s: Strategy, rr: nat, ms: seq<Metric>, sessions: seq<string>, m: Metric)
    requires ms != [] && Distinct(ms)
    ensures var picked := Serve(RoundRobinMode, s, rr, ms, sessions).picked;
            |picked| == |sessions| && Eligible(ms) != [] && FairShare(Eligible(ms), picked, m)
  {
    EligibleMeaning(ms);
    ServesInTurn(s, rr, ms, sessions);
    PicksAreFair(Eligible(ms), rr, |sessions|, m);
    PicksAreEligible(Eligible(ms), rr, |sessions|);
  }

  lemma {:induction false} PicksAreEligible(eligible: seq<Metric>, rr: nat, n: nat)
    requires eligible != []
    ensures |Dealt(eligible, rr, n)| == n && forall m <- Dealt(eligible, rr, n) :: m in eligible
  {
    if n > 0 {
      PicksAreEligible(eligible, rr, n - 1);
    }
  }
}
