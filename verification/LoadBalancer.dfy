/** The load balancer: its metrics, its round-robin index and the state file it restarts from. */
module LoadBalancer {
  import opened Common
  import opened Dicts
  import opened Balancing
  import opened Picking

  /** The parts of the configuration that selection uses. */
  datatype Config = Config(mode: Mode, cooldown: real)

  datatype State = State(config: Config, metrics: Dict<string, Metric>, rr: nat)

  datatype Decision = Decision(node: string, alternatives: seq<string>, wait: real)

  /** Every metric is filed under its node. */
  ghost predicate Filed(d: Dict<string, Metric>) {
    d.Wf() && forall k <- d.at :: d.at[k].node == k
  }

  lemma FiledIsDistinct(d: Dict<string, Metric>)
    requires Filed(d)
    ensures Distinct(d.Values()) && forall m :: m in d.Values() <==> m.node in d.at && d.at[m.node] == m
  {
    var ms := d.Values();
    forall i, j | 0 <= i < j < |ms|
      ensures ms[i] != ms[j]
    {
      assert d.keys[i] in d.at && d.keys[j] in d.at && d.keys[i] != d.keys[j];
    }
    forall m
      ensures m in ms <==> m.node in d.at && d.at[m.node] == m
    {
      if m in ms {
        var i :| 0 <= i < |ms| && ms[i] == m;
        assert d.keys[i] in d.at;
      }
      if m.node in d.at && d.at[m.node] == m {
        var i :| 0 <= i < |d.keys| && d.keys[i] == m.node;
        assert ms[i] == m;
      }
    }
  }

  function Others(ms: seq<Metric>, node: string): seq<string> {
    if ms == [] then []
    else Others(ms[..|ms| - 1], node) +
         if ms[|ms| - 1].node != node && !Overloaded(ms[|ms| - 1]) then [ms[|ms| - 1].node] else []
  }

  lemma {:induction false} OthersMeaning(ms: seq<Metric>, node: string)
    ensures AreOthers(ms, node, Others(ms, node))
  {
    if ms != [] {
      OthersMeaning(ms[..|ms| - 1], node);
      assert ms == ms[..|ms| - 1] + [ms[|ms| - 1]];
    }
  }

  ghost predicate AreOthers(ms: seq<Metric>, node: string, ids: seq<string>) {
    forall n :: n in ids <==> n != node && exists m <- ms :: m.node == n && !Overloaded(m)
  }

  function UpdatedAll(d: Dict<string, Metric>, ms: seq<Metric>): (u: Dict<string, Metric>)
    ensures d.Wf() ==> u.Wf()
  {
    if ms == [] then d else UpdatedAll(d, ms[..|ms| - 1]).Put(ms[|ms| - 1].node, ms[|ms| - 1])
  }

  lemma UpdatedNext(d: Dict<string, Metric>, ms: seq<Metric>, i: nat)
    requires i < |ms|
    ensures UpdatedAll(d, ms[..i + 1]) == UpdatedAll(d, ms[..i]).Put(ms[i].node, ms[i])
  {
    assert ms[..i + 1][..i] == ms[..i];
  }

  /** No later metric is for the same node. */
  ghost predicate IsLast(ms: seq<Metric>, i: int) {
    0 <= i < |ms| && forall j :: i < j < |ms| ==> ms[j].node != ms[i].node
  }

  ghost predicate LastCounts(ms: seq<Metric>, at: map<string, Metric>) {
    forall i :: IsLast(ms, i) ==> ms[i].node in at && at[ms[i].node] == ms[i]
  }

  lemma LastBefore(ms: seq<Metric>, m: Metric, i: int)
    requires i < |ms| && IsLast(ms + [m], i)
    ensures IsLast(ms, i) && ms[i].node != m.node
  {
    var all := ms + [m];
    assert all[|ms|] == m && all[i] == ms[i];
    assert forall j :: i < j < |ms| ==> all[j] == ms[j];
  }

  lemma LastCountsSnoc(ms: seq<Metric>, m: Metric, at: map<string, Metric>)
    requires LastCounts(ms, at)
    ensures LastCounts(ms + [m], at[m.node := m])
  {
    var all := ms + [m];
    forall i | IsLast(all, i)
      ensures all[i].node in at[m.node := m] && at[m.node := m][all[i].node] == all[i]
    {
      if i < |ms| {
        LastBefore(ms, m, i);
      }
    }
  }

  ghost predicate UpdatedFrom(d: Dict<string, Metric>, ms: seq<Metric>, u: Dict<string, Metric>) {
    && (forall n :: n in u.at <==> n in d.at || exists m <- ms :: m.node == n)
    && (forall n <- d.at :: (forall m <- ms :: m.node != n) ==> u.at[n] == d.at[n])
  }

  lemma UpdatedSnoc(d: Dict<string, Metric>, ms: seq<Metric>, m: Metric, u: Dict<string, Metric>)
    requires UpdatedFrom(d, ms, u)
    ensures UpdatedFrom(d, ms + [m], u.Put(m.node, m))
  {
    assert m in ms + [m] && forall x <- ms :: x in ms + [m];
    assert forall x <- ms + [m] :: x in ms || x == m;
  }

  /** The last metric given for a node counts; the other nodes keep theirs. */
  lemma {:induction false} UpdatedMeaning(d: Dict<string, Metric>, ms: seq<Metric>)
    requires Filed(d)
    ensures var u := UpdatedAll(d, ms); Filed(u) && LastCounts(ms, u.at) && UpdatedFrom(d, ms, u)
  {
    if ms != [] {
      var front, m := ms[..|ms| - 1], ms[|ms| - 1];
      UpdatedMeaning(d, front);
      LastCountsSnoc(front, m, UpdatedAll(d, front).at);
      UpdatedSnoc(d, front, m, UpdatedAll(d, front));
      assert ms == front + [m];
    }
  }

  /** The name of a node that a session could go to instead. */
  function Alternative(node: string): Metric -> Option<string> {
    (m: Metric) => if m.node != node && !Overloaded(m) then Some(m.node) else None
  }

  lemma {:induction false} OthersPicks(ms: seq<Metric>, node: string)
    ensures Picks(ms, Alternative(node), Others(ms, node))
  {
    if ms == [] {
      NothingPicked(ms, Alternative(node));
    } else {
      OthersPicks(ms[..|ms| - 1], node);
      PickLast(ms, Alternative(node), Others(ms[..|ms| - 1], node));
    }
  }

  /** The right node for what the balancer knew, its alternatives in their order, and a wait only if it is busy. */
  ghost predicate RightDecision(b: Balancer, session: string, d: Decision)
    requires b.metrics.Wf()
  {
    var ms := b.metrics.Values();
    exists m :: RightChoice(b.config.mode, b.strategy, b.rr, ms, session, m) && DecisionFor(b.config, ms, m, d)
  }

  ghost predicate DecisionFor(config: Config, ms: seq<Metric>, m: Metric, d: Decision) {
    && d.node == m.node && Picks(ms, Alternative(m.node), d.alternatives)
    && d.wait == if Overloaded(m) then config.cooldown * 1000.0 else 0.0
  }

  // ----- the balancer as a state machine

  datatype Balancer = Balancer(config: Config, metrics: Dict<string, Metric>, strategy: Strategy, rr: nat,
                               saved: Option<State>)

  datatype Action = Update(ms: seq<Metric>) | Select(session: string)

  /** The strategy object is made for the given configuration, before the saved one replaces it. */
  function Opened(config: Config, saved: Option<State>): Balancer {
    match saved
    case None => Balancer(config, Empty(), NewStrategy(config.mode), 0, saved)
    case Some(s) => Balancer(s.config, s.metrics, NewStrategy(config.mode), s.rr, saved)
  }

  /** What the next selection chooses. */
  function Chosen(b: Balancer, session: string): Choice
    requires b.metrics.Wf() && b.metrics.Values() != []
  {
    Choose(b.config.mode, b.strategy, b.rr, b.metrics.Values(), session)
  }

  /** Without nodes a selection does nothing; otherwise it also saves the state it leaves. */
  function Act(b: Balancer, a: Action): Balancer
    requires b.metrics.Wf()
  {
    match a
    case Update(ms) => b.(metrics := UpdatedAll(b.metrics, ms))
    case Select(session) =>
      if b.metrics.Values() == [] then b
      else
        var c := Chosen(b, session);
        b.(strategy := c.strategy, rr := c.rr, saved := Some(State(b.config, b.metrics, c.rr)))
  }

  function After(b: Balancer, acts: seq<Action>): (b': Balancer)
    requires b.metrics.Wf()
    ensures b'.metrics.Wf()
  {
    if acts == [] then b
    else
      Act(After(b, acts[..|acts| - 1]), acts[|acts| - 1])
  }

  /** The next decision does not leave a free node aside for an overloaded one. */
  ghost predicate DecidesWell(b: Balancer, session: string) {
    b.metrics.Wf() ==> Balanced(b.config.mode, b.strategy, b.rr, b.metrics.Values(), session)
  }

  ghost predicate AlwaysDecidesWell(b: Balancer)
    requires b.metrics.Wf()
  {
    forall acts, session :: DecidesWell(After(b, acts), session)
  }

  ghost predicate SameKind(s: Strategy, s': Strategy) {
    && (s.Cycle? <==> s'.Cycle?) && (s.Least? <==> s'.Least?)
    && (s.Weighted? <==> s'.Weighted?) && (s.Affinity? <==> s'.Affinity?)
  }

  /** No call changes the mode or the kind of the strategy object. */
  lemma {:induction false} KindStays(b: Balancer, acts: seq<Action>)
    requires b.metrics.Wf()
    ensures After(b, acts).config == b.config
    ensures SameKind(b.strategy, After(b, acts).strategy)
  {
    if acts != [] {
      KindStays(b, acts[..|acts| - 1]);
    }
  }

  /** A busy node in front of an idle one, for whatever nodes are known. */
  function BusyNews(d: Dict<string, Metric>): seq<Metric> {
    var first := if d.keys == [] then "a" else d.keys[0];
    [Node(first, 4), Node(first + "x", 0)]
  }

  lemma UpdatedTwice(d: Dict<string, Metric>, m1: Metric, m2: Metric)
    ensures UpdatedAll(d, [m1, m2]) == d.Put(m1.node, m1).Put(m2.node, m2)
  {
    assert [m1, m2][..1] == [m1] && [m1][..0] == [];
    assert UpdatedAll(d, []) == d && UpdatedAll(d, [m1]) == d.Put(m1.node, m1);
  }

  lemma BusyNewsMeaning(d: Dict<string, Metric>)
    requires d.Wf()
    ensures var ms := UpdatedAll(d, BusyNews(d)).Values();
            |ms| > 1 && ms[0] == BusyNews(d)[0] && BusyNews(d)[1] in ms
  {
    var news := BusyNews(d);
    var d1 := d.Put(news[0].node, news[0]);
    var d2 := d1.Put(news[1].node, news[1]);
    UpdatedTwice(d, news[0], news[1]);
    assert |news[1].node| == |news[0].node| + 1;
    assert d2.keys[0] == news[0].node;
    var i :| 0 <= i < |d2.keys| && d2.keys[i] == news[1].node;
    assert d2.Values()[i] == news[1];
  }

  /** A balancer that was made for round robin and restarts from the state of another mode
      sends the first session to a busy node while another is idle. */
  lemma RestartPicksBusy(config: Config, s: State)
    requires config.mode.RoundRobinMode? && !s.config.mode.RoundRobinMode? && s.metrics.Wf()
    ensures var b := Opened(config, Some(s));
            b.metrics.Wf() && !DecidesWell(After(b, [Update(BusyNews(s.metrics))]), "")
  {
    var b, news := Opened(config, Some(s)), BusyNews(s.metrics);
    BusyNewsMeaning(s.metrics);
    AfterOne(b, Update(news));
    var b1 := After(b, [Update(news)]);
    NewCyclePicksFirst(b1.config.mode, b1.rr, b1.metrics.Values());
    NodeLoad(news[0].node);
    NodeLoad(news[1].node);
  }

  lemma AfterOne(b: Balancer, a: Action)
    requires b.metrics.Wf()
    ensures After(b, [a]) == Act(b, a)
  {
    assert [a][..0] == [];
    assert After(b, []) == b;
  }

  lemma NewCyclePicksFirst(mode: Mode, rr: nat, ms: seq<Metric>)
    requires !mode.RoundRobinMode? && ms != []
    ensures Choose(mode, NewStrategy(RoundRobinMode), rr, ms, "").metric == ms[0]
  {
  }

  /** Over every run of a balancer all decisions are balanced, whatever the metrics, if and only
      if it starts without a saved state, the saved mode is round robin or the given one is not. */
  lemma RunsAreBalancedExactly(config: Config, saved: Option<State>)
    requires saved.Some? ==> saved.value.metrics.Wf()
    ensures Opened(config, saved).metrics.Wf()
    ensures AlwaysDecidesWell(Opened(config, saved)) <==>
            saved.None? || saved.value.config.mode.RoundRobinMode? || !config.mode.RoundRobinMode?
  {
    var b := Opened(config, saved);
    if saved.None? || saved.value.config.mode.RoundRobinMode? || !config.mode.RoundRobinMode? {
      forall acts, session
        ensures DecidesWell(After(b, acts), session)
      {
        KindStays(b, acts);
        var now := After(b, acts);
        ChoiceIsBalanced(now.config.mode, now.strategy, now.rr, now.metrics.Values(), session);
      }
    } else {
      RestartPicksBusy(config, saved.value);
    }
  }

  /** The decision is for the chosen metric, and that is the right one. */
  ghost predicate Decides(b: Balancer, session: string, d: Decision) {
    b.metrics.Wf() && b.metrics.Values() != [] ==>
      DecisionFor(b.config, b.metrics.Values(), Chosen(b, session).metric, d) && RightDecision(b, session, d)
  }

  /** The decision for the metric that is chosen. */
  function DecisionOf(b: Balancer, session: string): Decision
    requires b.metrics.Wf() && b.metrics.Values() != []
  {
    var ms, m := b.metrics.Values(), Chosen(b, session).metric;
    Decision(m.node, Others(ms, m.node), if Overloaded(m) then b.config.cooldown * 1000.0 else 0.0)
  }

  lemma DecisionIsRight(b: Balancer, session: string)
    requires b.metrics.Wf() && b.metrics.Values() != []
    ensures Decides(b, session, DecisionOf(b, session))
  {
    OthersPicks(b.metrics.Values(), Chosen(b, session).metric.node);
    ChoiceIsRight(b.config.mode, b.strategy, b.rr, b.metrics.Values(), session);
  }

  /** What each mode stands for. */
  ghost predicate ServesMode(mode: Mode, b: Balancer, ms: seq<Metric>, session: string, m: Metric) {
    match mode
    case RoundRobinMode => IsInTurn(ms, b.rr, m)
    case LeastLoadedMode => IsLeastLoaded(ms, m)
    case WeightedMode => IsWorthiest(ms, m)
    case AffinityMode => b.strategy.Affinity? && KeepsOrLeast(b.strategy, ms, session, m)
  }

  /** Over every run of a balancer that is not restarted under another mode, each session gets the
      node that the mode stands for. */
  lemma ModesAreServed(config: Config, saved: Option<State>, acts: seq<Action>, session: string)
    requires saved.Some? ==> saved.value.metrics.Wf() && saved.value.config.mode == config.mode
    ensures var b := After(Opened(config, saved), acts);
            b.metrics.Values() != [] ==>
              ServesMode(config.mode, b, b.metrics.Values(), session, Chosen(b, session).metric)
  {
    KindStays(Opened(config, saved), acts);
    var b := After(Opened(config, saved), acts);
    if b.metrics.Values() != [] {
      ChoiceIsRight(b.config.mode, b.strategy, b.rr, b.metrics.Values(), session);
    }
  }

  // ----- round robin over runs

  /** One selection for each session, in turn. */
  function Selects(sessions: seq<string>): seq<Action> {
    seq(|sessions|, i requires 0 <= i < |sessions| => Select(sessions[i]))
  }

  /** The metrics chosen along such a run. */
  function PickedOver(b: Balancer, sessions: seq<string>): seq<Metric>
    requires b.metrics.Wf()
  {
    if sessions == [] then []
    else
      var n := |sessions| - 1;
      var before := After(b, Selects(sessions[..n]));
      PickedOver(b, sessions[..n]) +
      if before.metrics.Values() == [] then [] else [Chosen(before, sessions[n]).metric]
  }

  /** A run of selections serves the sessions one after the other. */
  ghost predicate HasServed(b: Balancer, b': Balancer, sessions: seq<string>, picked: seq<Metric>)
    requires b.metrics.Wf() && b.metrics.Values() != []
  {
    var served := Serve(b.config.mode, b.strategy, b.rr, b.metrics.Values(), sessions);
    && b'.config == b.config && b'.metrics == b.metrics
    && b'.strategy == served.strategy && b'.rr == served.rr && picked == served.picked
  }

  lemma {:induction false} SelectsServe(b: Balancer, sessions: seq<string>)
    requires b.metrics.Wf() && b.metrics.Values() != []
    ensures HasServed(b, After(b, Selects(sessions)), sessions, PickedOver(b, sessions))
  {
    if sessions != [] {
      var n := |sessions| - 1;
      SelectsServe(b, sessions[..n]);
      assert Selects(sessions)[..n] == Selects(sessions[..n]);
    }
  }

  /**
   Of n sessions that a balancer in round-robin mode serves in a row, from whatever state it was
   left or restarted in, each of the k eligible nodes gets n / k, rounded down or up, and no other
   node gets any.
   */
  lemma RunsAreFair(b: Balancer, sessions: seq<string>, m: Metric)
    requires Filed(b.metrics) && b.config.mode.RoundRobinMode? && b.metrics.Values() != []
    ensures var ms, picked := b.metrics.Values(), PickedOver(b, sessions);
            && |picked| == |sessions| && Eligible(ms) != [] && FairShare(Eligible(ms), picked, m)
            && After(b, Selects(sessions)).rr == b.rr + |sessions|
  {
    SelectsServe(b, sessions);
    FiledIsDistinct(b.metrics);
    EligibleMeaning(b.metrics.Values());
    ServesInTurn(b.strategy, b.rr, b.metrics.Values(), sessions);
    RoundRobinIsFair(b.strategy, b.rr, b.metrics.Values(), sessions, m);
  }

  // ----- the balancer itself

  class LoadBalancer {
    var config: Config
    var metrics: Dict<string, Metric>
    var strategy: Strategy
    var rr: nat
    var saved: Option<State>

    ghost function Now(): Balancer
      reads this
    {
      Balancer(config, metrics, strategy, rr, saved)
    }

    ghost predicate Valid()
      reads this
    {
      metrics.Wf()
    }

    constructor (config: Config, saved: Option<State>)
      requires saved.Some? ==> saved.value.metrics.Wf()
      ensures Valid() && Now() == Opened(config, saved)
    {
      this.saved, strategy := saved, NewStrategy(config.mode);
      if saved.Some? {
        this.config, metrics, rr := saved.value.config, saved.value.metrics, saved.value.rr;
      } else {
        this.config, metrics, rr := config, Empty(), 0;
      }
    }

    method UpdateMetrics(ms: seq<Metric>)
      requires Valid()
      modifies this`metrics
      ensures Valid() && Now() == Act(old(Now()), Update(ms))
      ensures old(Filed(metrics)) ==> Filed(metrics)
    {
      if Filed(metrics) {
        UpdatedMeaning(metrics, ms);
      }
      var i := 0;
      assert ms[..0] == [];
      while i < |ms|
        invariant i <= |ms|
        invariant metrics == UpdatedAll(old(metrics), ms[..i])
      {
        UpdatedNext(old(metrics), ms, i);
        metrics := metrics.Put(ms[i].node, ms[i]);
        i := i + 1;
      }
      assert ms[..i] == ms;
    }

    /** The other nodes that a session could go to. */
    method Alternatives(ms: seq<Metric>, node: string) returns (ids: seq<string>)
      ensures ids == Others(ms, node) && AreOthers(ms, node, ids)
    {
      ids := [];
      var i := 0;
      assert ms[..0] == [];
      while i < |ms|
        invariant i <= |ms|
        invariant ids == Others(ms[..i], node)
      {
        OthersNext(ms, node, i);
        if ms[i].node != node && !Overloaded(ms[i]) {
          ids := ids + [ms[i].node];
        }
        i := i + 1;
      }
      assert ms[..i] == ms;
      OthersMeaning(ms, node);
    }

    /** Nothing happens without nodes. Else the choice is made, with the alternatives to it, and
        the state that a restart would load is the one this call leaves. */
    method SelectNode(session: string) returns (decision: Option<Decision>)
      requires Valid()
      modifies this
      ensures Valid() && Now() == Act(old(Now()), Select(session))
      ensures decision.None? <==> metrics.Values() == []
      ensures decision.Some? ==> Decides(old(Now()), session, decision.value)
      ensures decision.Some? ==> saved == Some(State(config, metrics, rr))
    {
      var ms := metrics.Values();
      if ms == [] {
        return None;
      }
      var c := Choose(config.mode, strategy, rr, ms, session);
      strategy, rr := c.strategy, c.rr;
      var alternatives := Alternatives(ms, c.metric.node);
      saved := Some(State(config, metrics, rr));
      decision := Some(Decision(c.metric.node, alternatives,
                                if Overloaded(c.metric) then config.cooldown * 1000.0 else 0.0));
      DecisionIsRight(old(Now()), session);
    }
  }

  lemma OthersNext(ms: seq<Metric>, node: string, i: nat)
    requires i < |ms|
    ensures Others(ms[..i + 1], node)
            == Others(ms[..i], node) + if ms[i].node != node && !Overloaded(ms[i]) then [ms[i].node] else []
  {
    assert ms[..i + 1][..i] == ms[..i];
  }

  /** For a balancer that was not restarted under another mode, a busy node means that all are busy. */
  lemma BusyMeansNoAlternative(mode: Mode, s: Strategy, rr: nat, d: Dict<string, Metric>, session: string)
    requires Filed(d) && d.keys != [] && (mode.RoundRobinMode? || !s.Cycle?)
    ensures var m := Choose(mode, s, rr, d.Values(), session).metric;
            && m.node in d.at && d.at[m.node] == m
            && (Overloaded(m) ==> Others(d.Values(), m.node) == [])
  {
    var ms := d.Values();
    ChoiceIsBalanced(mode, s, rr, ms, session);
    FiledIsDistinct(d);
    var m := Choose(mode, s, rr, ms, session).metric;
    OthersMeaning(ms, m.node);
    if Others(ms, m.node) != [] {
      assert Others(ms, m.node)[0] in Others(ms, m.node);
    }
  }
}
