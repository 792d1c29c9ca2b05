/** Steps in stages, every step of a stage routed to every step of the next: which step can reach
    which, and what rank each gets. */
module StageOrder {
  import opened Options
  import opened Graph
  import opened Ranks

  /** Step names, stage by stage. */
  type Groups = seq<seq<string>>

  function Flat(groups: Groups): seq<string> {
    if groups == [] then [] else groups[0] + Flat(groups[1..])
  }

  /** The stage of the i-th step. */
  function StageAt(groups: Groups, i: nat): nat {
    if groups == [] || i < |groups[0]| then 0 else 1 + StageAt(groups[1..], i - |groups[0]|)
  }

  predicate Distinct(names: seq<string>) { forall i, j :: 0 <= i < j < |names| ==> names[i] != names[j] }

  /** The route leads from some stage to the next one. */
  ghost predicate CrossRoute(groups: Groups, r: Route) {
    exists k :: 0 <= k < |groups| - 1 && r.from in groups[k] && r.to in groups[k + 1]
  }

  ghost predicate Staged(groups: Groups, routes: seq<Route>) {
    && Distinct(Flat(groups))
    && (forall k :: 0 <= k < |groups| ==> groups[k] != [])
    && (forall r :: r in routes <==> CrossRoute(groups, r))
  }

  lemma {:induction false} StageOfStep(groups: Groups, i: nat)
    requires i < |Flat(groups)|
    ensures StageAt(groups, i) < |groups| && Flat(groups)[i] in groups[StageAt(groups, i)]
  {
    if i >= |groups[0]| { StageOfStep(groups[1..], i - |groups[0]|); }
  }

  lemma {:induction false} StepOfStage(groups: Groups, k: nat, name: string) returns (i: nat)
    requires k < |groups| && name in groups[k]
    ensures i < |Flat(groups)| && Flat(groups)[i] == name && StageAt(groups, i) == k
  {
    if k == 0 {
      i :| 0 <= i < |groups[0]| && groups[0][i] == name;
    } else {
      i := StepOfStage(groups[1..], k - 1, name);
      i := i + |groups[0]|;
    }
  }

  /** With distinct names a name belongs to exactly the stage of its step. */
  lemma StageOfName(groups: Groups, i: nat, k: nat)
    requires Distinct(Flat(groups)) && i < |Flat(groups)| && k < |groups|
    ensures Flat(groups)[i] in groups[k] <==> StageAt(groups, i) == k
  {
    StageOfStep(groups, i);
    if Flat(groups)[i] in groups[k] {
      var j := StepOfStage(groups, k, Flat(groups)[i]);
    }
  }

  lemma NamesDistinct(names: seq<string>, name: string, i: nat)
    requires Distinct(names)
    ensures Names(names, name, i) <==> i < |names| && names[i] == name
  {
  }

  /** The compiled routes join exactly the steps of neighbouring stages. */
  lemma EdgesJoinNeighbours(groups: Groups, routes: seq<Route>, adj: Adj, u: nat, v: nat)
    requires Staged(groups, routes) && RouteGraph(Flat(groups), routes, adj)
    requires u < |adj| && v < |adj|
    ensures Edge(adj, u, v) <==> StageAt(groups, v) == StageAt(groups, u) + 1
  {
    var names := Flat(groups);
    if Edge(adj, u, v) {
      var k :| 0 <= k < |routes| && Names(names, routes[k].from, u) && Names(names, routes[k].to, v);
      assert routes[k] in routes;
      var m :| 0 <= m < |groups| - 1 && routes[k].from in groups[m] && routes[k].to in groups[m + 1];
      StageOfName(groups, u, m);
      StageOfName(groups, v, m + 1);
    }
    if StageAt(groups, v) == StageAt(groups, u) + 1 {
      StageOfStep(groups, u);
      StageOfStep(groups, v);
      var r := Route(names[u], names[v]);
      assert CrossRoute(groups, r);
      var k :| 0 <= k < |routes| && routes[k] == r;
      NamesDistinct(names, names[u], u);
      NamesDistinct(names, names[v], v);
      assert Linked(names, routes, u, v);
    }
  }

  ghost function Stages(groups: Groups): seq<nat> {
    seq(|Flat(groups)|, i requires 0 <= i < |Flat(groups)| => StageAt(groups, i))
  }

  /** The stage index of every step is a ranking of the compiled graph. */
  lemma StagesRank(groups: Groups, routes: seq<Route>, adj: Adj)
    requires Staged(groups, routes) && RouteGraph(Flat(groups), routes, adj)
    ensures Ranking(adj, Stages(groups))
  {
    var rank := Stages(groups);
    forall u: nat, v: nat | Edge(adj, u, v) ensures rank[u] < rank[v] {
      EdgesJoinNeighbours(groups, routes, adj, u, v);
    }
    forall v: nat | v < |rank| && rank[v] > 0 ensures Supported(adj, rank, v) {
      var u := StepBefore(groups, v);
      EdgesJoinNeighbours(groups, routes, adj, u, v);
    }
  }

  /** Some step stands in the stage before a later stage's step. */
  lemma StepBefore(groups: Groups, v: nat) returns (u: nat)
    requires (forall k :: 0 <= k < |groups| ==> groups[k] != []) && v < |Flat(groups)| && StageAt(groups, v) > 0
    ensures u < |Flat(groups)| && StageAt(groups, u) + 1 == StageAt(groups, v)
  {
    StageOfStep(groups, v);
    var k := StageAt(groups, v) - 1;
    u := StepOfStage(groups, k, groups[k][0]);
  }

  lemma {:induction false} LaterIsReached(groups: Groups, routes: seq<Route>, adj: Adj, u: nat, v: nat) returns (p: seq<nat>)
    requires Staged(groups, routes) && RouteGraph(Flat(groups), routes, adj)
    requires u < |adj| && v < |adj| && StageAt(groups, u) < StageAt(groups, v)
    ensures Path(adj, p) && |p| > 1 && p[0] == u && EndsAt(p, v)
    decreases StageAt(groups, v)
  {
    if StageAt(groups, v) == StageAt(groups, u) + 1 {
      EdgesJoinNeighbours(groups, routes, adj, u, v);
      p := [u, v];
    } else {
      var w := StepBefore(groups, v);
      var q := LaterIsReached(groups, routes, adj, u, w);
      EdgesJoinNeighbours(groups, routes, adj, w, v);
      p := q + [v];
      forall i | 0 <= i < |p| - 1 ensures Edge(adj, p[i], p[i + 1]) {
        if i < |q| - 1 { assert p[i] == q[i] && p[i + 1] == q[i + 1]; }
      }
    }
  }

  /** One step reaches another exactly when its stage comes earlier, and no routes form a cycle. */
  lemma ReachabilityIsStageOrder(groups: Groups, routes: seq<Route>, adj: Adj, u: nat, v: nat)
    requires Staged(groups, routes) && RouteGraph(Flat(groups), routes, adj)
    requires u < |adj| && v < |adj|
    ensures Reaches(adj, u, v) <==> StageAt(groups, u) < StageAt(groups, v)
    ensures !Cyclic(adj)
  {
    StagesRank(groups, routes, adj);
    RankingIsLongest(adj, Stages(groups));
    if StageAt(groups, u) < StageAt(groups, v) {
      var _ := LaterIsReached(groups, routes, adj, u, v);
    }
  }

  /** Compiled routes are layered, so two steps are in one stage precisely when neither reaches the other. */
  lemma StageIsConcurrency(groups: Groups, routes: seq<Route>, adj: Adj, u: nat, v: nat)
    requires Staged(groups, routes) && RouteGraph(Flat(groups), routes, adj)
    requires u < |adj| && v < |adj|
    ensures StageAt(groups, u) == StageAt(groups, v) <==> Concurrent(adj, u, v)
  {
    StagesRank(groups, routes, adj);
    forall a: nat, b: nat | a < |adj| && b < |adj| && Stages(groups)[b] == Stages(groups)[a] + 1 ensures Edge(adj, a, b) {
      EdgesJoinNeighbours(groups, routes, adj, a, b);
    }
    RankIsConcurrencyExactly(adj, Stages(groups));
  }

  lemma GraphRanksAreStages(groups: Groups, routes: seq<Route>, adj: Adj, r: Option<seq<nat>>)
    requires Staged(groups, routes) && RouteGraph(Flat(groups), routes, adj) && GraphRanks(adj, r)
    ensures r == Some(Stages(groups))
  {
    var stages := Stages(groups);
    StagesRank(groups, routes, adj);
    RankingIsLongest(adj, stages);
    forall v: nat | v < |adj| ensures r.value[v] == stages[v] {
      LongestUnique(adj, v, r.value[v], stages[v]);
    }
    assert r.value == stages;
  }

  lemma ManyStagesRank(groups: Groups, routes: seq<Route>, r: Option<seq<nat>>)
    requires Staged(groups, routes) && StageRanks(Flat(groups), routes, r) && |groups| > 1
    ensures r == Some(Stages(groups))
  {
    var cross := Route(groups[0][0], groups[1][0]);
    assert CrossRoute(groups, cross) && cross in routes;
    var adj :| RouteGraph(Flat(groups), routes, adj) && GraphRanks(adj, r);
    GraphRanksAreStages(groups, routes, adj, r);
  }

  /** With two or more stages, or a single step, the ranker's answer is each step's stage index. */
  lemma RanksAreStages(groups: Groups, routes: seq<Route>, r: Option<seq<nat>>)
    requires Staged(groups, routes) && StageRanks(Flat(groups), routes, r)
    requires |groups| > 1 || |Flat(groups)| == 1
    ensures r == Some(Stages(groups))
  {
    if |groups| > 1 {
      ManyStagesRank(groups, routes, r);
    } else {
      LoneStageReadsAsSequence(groups, routes, r);
      StageOfStep(groups, 0);
      assert r.value == Stages(groups);
    }
  }

  lemma LongestUnique(adj: Adj, v: nat, a: nat, b: nat)
    requires Longest(adj, v, a) && Longest(adj, v, b)
    ensures a == b
  {
    var p :| Path(adj, p) && EndsAt(p, v) && |p| == a + 1;
    var q :| Path(adj, q) && EndsAt(q, v) && |q| == b + 1;
    assert |p| <= b + 1 && |q| <= a + 1;
  }

  lemma LoneStageHasNoCrossing(groups: Groups, r: Route)
    ensures |groups| <= 1 ==> !CrossRoute(groups, r)
  {
  }

  /** A lone stage has no routes, so its steps read as a sequence. */
  lemma LoneStageReadsAsSequence(groups: Groups, routes: seq<Route>, r: Option<seq<nat>>)
    requires Staged(groups, routes) && StageRanks(Flat(groups), routes, r) && |groups| == 1
    ensures routes == [] && r.Some? && |r.value| == |Flat(groups)| && forall i :: 0 <= i < |r.value| ==> r.value[i] == i
  {
    forall x | x in routes ensures CrossRoute(groups, x) {}
    if routes != [] { LoneStageHasNoCrossing(groups, routes[0]); }
  }
}
