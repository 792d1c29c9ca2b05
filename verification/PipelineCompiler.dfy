/** From parsed nodes to step references and the routes between them. */
module PipelineCompiler {
  import opened Options
  import opened JsonValues
  import opened PipelineDsl
  import opened PipelineParser
  import opened Ranks
  import opened StageOrder

  const GIT_CLONE_ENV := "GIT_CLONE_URL"

  /** The per-step override that hands a step its git repository. */
  function GitRepoStepWith(repo: string): Object {
    if repo == "" then map[]
    else map["secret_refs" := JObj(map[GIT_CLONE_ENV := JStr("git:" + repo)])]
  }

  /** The repository named by the secret references when they hold nothing else; other entries of the
      override are not looked at. */
  function GitRepoFromStepWith(with: Object): string {
    if "secret_refs" in with && with["secret_refs"].JObj? then
      var refs := with["secret_refs"].fields;
      if |refs| == 1 && GIT_CLONE_ENV in refs && refs[GIT_CLONE_ENV].JStr? && "git:" <= refs[GIT_CLONE_ENV].s
      then refs[GIT_CLONE_ENV].s[4..]
      else ""
    else ""
  }

  lemma RepoRoundTrip(repo: string)
    ensures GitRepoFromStepWith(GitRepoStepWith(repo)) == repo
  {
    assert ("git:" + repo)[4..] == repo;
  }

  datatype StepRef = StepRef(stepId: string, name: string, with: Object, mapId: string)

  /** A step with the map region its node puts it in. */
  datatype Placed = Placed(token: StepToken, mapId: string)

  function PlaceStage(st: Stage, mapId: string): seq<Placed> {
    seq(|st|, i requires 0 <= i < |st| => Placed(st[i], mapId))
  }

  function PlaceStages(stages: seq<Stage>, mapId: string): seq<Placed> {
    if stages == [] then [] else PlaceStage(stages[0], mapId) + PlaceStages(stages[1..], mapId)
  }

  function Place(nodes: seq<Node>): seq<Placed> {
    if nodes == [] then [] else PlaceStages(nodes[0].stages, nodes[0].mapId) + Place(nodes[1..])
  }

  /** The references of steps in order; the first name the catalog does not know is the error. */
  function Resolve(steps: seq<Placed>, catalog: map<string, string>): Result<seq<StepRef>, DslError> {
    if steps == [] then Ok([])
    else
      var t := steps[0].token;
      if t.name !in catalog then Err(StepNotFound(t.name))
      else Consed(StepRef(catalog[t.name], t.name, GitRepoStepWith(t.repo), steps[0].mapId), Resolve(steps[1..], catalog))
  }

  function LinkTo(from: string, to: seq<string>): seq<Route> {
    seq(|to|, i requires 0 <= i < |to| => Route(from, to[i]))
  }

  function Links(from: seq<string>, to: seq<string>): seq<Route> {
    if from == [] then [] else LinkTo(from[0], to) + Links(from[1..], to)
  }

  function StageNames(st: Stage): seq<string> {
    seq(|st|, i requires 0 <= i < |st| => st[i].name)
  }

  function NameGroups(stages: seq<Stage>): Groups {
    seq(|stages|, i requires 0 <= i < |stages| => StageNames(stages[i]))
  }

  function StageRoutes(groups: Groups): seq<Route> {
    if |groups| < 2 then [] else Links(groups[0], groups[1]) + StageRoutes(groups[1..])
  }

  function WithinRoutes(nodes: seq<Node>): seq<Route> {
    if nodes == [] then [] else StageRoutes(NameGroups(nodes[0].stages)) + WithinRoutes(nodes[1..])
  }

  predicate Stageful(nodes: seq<Node>) { forall node :: node in nodes ==> node.stages != [] }

  function Entries(node: Node): seq<string>
    requires node.stages != []
  {
    StageNames(node.stages[0])
  }

  function Exits(node: Node): seq<string>
    requires node.stages != []
  {
    StageNames(node.stages[|node.stages| - 1])
  }

  function BetweenRoutes(nodes: seq<Node>): seq<Route>
    requires Stageful(nodes)
  {
    if |nodes| < 2 then [] else Links(Exits(nodes[0]), Entries(nodes[1])) + BetweenRoutes(nodes[1..])
  }

  function RoutesOf(nodes: seq<Node>): seq<Route>
    requires Stageful(nodes)
  {
    WithinRoutes(nodes) + BetweenRoutes(nodes)
  }

  // ---- The compiler's loops. ----

  method Link(routes: seq<Route>, from: seq<string>, to: seq<string>) returns (r: seq<Route>)
    ensures r == routes + Links(from, to)
  {
    r := routes;
    assert from[0..] == from;
    for i := 0 to |from|
      invariant r + Links(from[i..], to) == routes + Links(from, to)
    {
      ghost var before := r;
      for j := 0 to |to|
        invariant r == before + LinkTo(from[i], to)[..j]
      {
        assert LinkTo(from[i], to)[..j + 1] == LinkTo(from[i], to)[..j] + [Route(from[i], to[j])];
        r := r + [Route(from[i], to[j])];
      }
      assert LinkTo(from[i], to)[..|to|] == LinkTo(from[i], to);
      assert from[i..][1..] == from[i + 1..];
      assert before + (LinkTo(from[i], to) + Links(from[i + 1..], to)) == r + Links(from[i + 1..], to);
    }
    assert from[|from|..] == [] && r + [] == r;
  }

  lemma ResolveAppends(refs: seq<StepRef>, steps: seq<Placed>, catalog: map<string, string>)
    requires steps != []
    ensures var t := steps[0].token;
      Appended(refs, Resolve(steps, catalog)) ==
        if t.name !in catalog then Err(StepNotFound(t.name))
        else Appended(refs + [StepRef(catalog[t.name], t.name, GitRepoStepWith(t.repo), steps[0].mapId)], Resolve(steps[1..], catalog))
  {
    var tail := Resolve(steps[1..], catalog);
    if tail.Ok? && steps[0].token.name in catalog {
      var ref := Resolve(steps, catalog).value[0];
      assert refs + ([ref] + tail.value) == (refs + [ref]) + tail.value;
    }
  }

  /** The references of one stage's steps, appended to those so far. */
  method ResolveStage(before: seq<StepRef>, st: Stage, mapId: string, catalog: map<string, string>, ghost rest: seq<Placed>)
    returns (r: Result<seq<StepRef>, DslError>)
    ensures r.Err? ==> Resolve(PlaceStage(st, mapId) + rest, catalog) == Err(r.error)
    ensures r.Ok? ==> Appended(before, Resolve(PlaceStage(st, mapId) + rest, catalog)) == Appended(r.value, Resolve(rest, catalog))
  {
    var refs := before;
    ghost var all := Appended(before, Resolve(PlaceStage(st, mapId) + rest, catalog));
    assert st[0..] == st;
    for k := 0 to |st|
      invariant Appended(refs, Resolve(PlaceStage(st[k..], mapId) + rest, catalog)) == all
    {
      ghost var steps := PlaceStage(st[k..], mapId) + rest;
      assert steps[0] == Placed(st[k], mapId) && steps[1..] == PlaceStage(st[k + 1..], mapId) + rest;
      ResolveAppends(refs, steps, catalog);
      var t := st[k];
      if t.name !in catalog {
        return Err(StepNotFound(t.name));
      }
      refs := refs + [StepRef(catalog[t.name], t.name, GitRepoStepWith(t.repo), mapId)];
    }
    assert PlaceStage(st[|st|..], mapId) + rest == rest;
    return Ok(refs);
  }

  /** The references of one segment's stages, appended to those so far. */
  method ResolveStages(before: seq<StepRef>, stages: seq<Stage>, mapId: string, catalog: map<string, string>, ghost later: seq<Placed>)
    returns (r: Result<seq<StepRef>, DslError>)
    ensures r.Err? ==> Resolve(PlaceStages(stages, mapId) + later, catalog) == Err(r.error)
    ensures r.Ok? ==> Appended(before, Resolve(PlaceStages(stages, mapId) + later, catalog)) == Appended(r.value, Resolve(later, catalog))
  {
    var refs := before;
    ghost var all := Appended(before, Resolve(PlaceStages(stages, mapId) + later, catalog));
    assert stages[0..] == stages;
    for j := 0 to |stages|
      invariant Appended(refs, Resolve(PlaceStages(stages[j..], mapId) + later, catalog)) == all
    {
      ghost var rest := PlaceStages(stages[j + 1..], mapId) + later;
      assert stages[j..][1..] == stages[j + 1..];
      assert PlaceStages(stages[j..], mapId) + later == PlaceStage(stages[j], mapId) + rest;
      var more := ResolveStage(refs, stages[j], mapId, catalog, rest);
      if more.Err? {
        return Err(more.error);
      }
      refs := more.value;
    }
    assert PlaceStages(stages[|stages|..], mapId) + later == later;
    return Ok(refs);
  }

  method ResolveRefs(nodes: seq<Node>, catalog: map<string, string>) returns (r: Result<seq<StepRef>, DslError>)
    ensures r == Resolve(Place(nodes), catalog)
  {
    var refs: seq<StepRef> := [];
    ghost var all := Resolve(Place(nodes), catalog);
    assert all.Ok? ==> refs + all.value == all.value;
    assert nodes[0..] == nodes;
    for i := 0 to |nodes|
      invariant Appended(refs, Resolve(Place(nodes[i..]), catalog)) == all
    {
      assert nodes[i..][1..] == nodes[i + 1..];
      var more := ResolveStages(refs, nodes[i].stages, nodes[i].mapId, catalog, Place(nodes[i + 1..]));
      if more.Err? {
        return Err(more.error);
      }
      refs := more.value;
    }
    assert Place(nodes[|nodes|..]) == [] && refs + [] == refs;
    return Ok(refs);
  }

  lemma {:induction false} StageRoutesStep(groups: Groups, k: nat)
    requires 1 <= k < |groups|
    ensures StageRoutes(groups[k - 1..]) == Links(groups[k - 1], groups[k]) + StageRoutes(groups[k..])
  {
    assert groups[k - 1..][1..] == groups[k..];
  }

  /** Consecutive stages of one segment, joined by their cross product. */
  method LinkStages(routes: seq<Route>, stages: seq<Stage>) returns (r: seq<Route>)
    requires stages != []
    ensures r == routes + StageRoutes(NameGroups(stages))
  {
    r := routes;
    ghost var groups := NameGroups(stages);
    assert groups[0..] == groups;
    for k := 1 to |stages|
      invariant r + StageRoutes(groups[k - 1..]) == routes + StageRoutes(groups)
    {
      StageRoutesStep(groups, k);
      ghost var before := r;
      r := Link(r, StageNames(stages[k - 1]), StageNames(stages[k]));
      assert before + (Links(groups[k - 1], groups[k]) + StageRoutes(groups[k..])) == r + StageRoutes(groups[k..]);
    }
    assert r + [] == r;
  }

  /** Each segment's exits, joined to the next segment's entries. */
  method LinkNodes(routes: seq<Route>, nodes: seq<Node>) returns (r: seq<Route>)
    requires Stageful(nodes)
    ensures r == routes + BetweenRoutes(nodes)
  {
    r := routes;
    if |nodes| == 0 {
      assert r + [] == r;
      return;
    }
    assert nodes[0..] == nodes;
    for k := 1 to |nodes|
      invariant r + BetweenRoutes(nodes[k - 1..]) == routes + BetweenRoutes(nodes)
    {
      assert nodes[k - 1..][1..] == nodes[k..];
      ghost var before := r;
      r := Link(r, Exits(nodes[k - 1]), Entries(nodes[k]));
      assert before + (Links(Exits(nodes[k - 1]), Entries(nodes[k])) + BetweenRoutes(nodes[k..])) == r + BetweenRoutes(nodes[k..]);
    }
    assert r + [] == r;
  }

  method DslToRefs(nodes: seq<Node>, catalog: map<string, string>)
    returns (r: Result<(seq<StepRef>, seq<Route>), DslError>)
    requires Stageful(nodes)
    ensures var refs := Resolve(Place(nodes), catalog);
      r == if refs.Ok? then Ok((refs.value, RoutesOf(nodes))) else Err(refs.error)
  {
    var refs := ResolveRefs(nodes, catalog);
    if refs.Err? {
      return Err(refs.error);
    }
    var routes: seq<Route> := [];
    assert nodes[0..] == nodes && routes + WithinRoutes(nodes) == WithinRoutes(nodes);
    for i := 0 to |nodes|
      invariant routes + WithinRoutes(nodes[i..]) == WithinRoutes(nodes)
    {
      assert nodes[i] in nodes && nodes[i..][1..] == nodes[i + 1..];
      ghost var before, linked := routes, StageRoutes(NameGroups(nodes[i].stages));
      routes := LinkStages(routes, nodes[i].stages);
      assert before + (linked + WithinRoutes(nodes[i + 1..])) == routes + WithinRoutes(nodes[i + 1..]);
    }
    assert WithinRoutes(nodes[|nodes|..]) == [] && routes + [] == routes;
    routes := LinkNodes(routes, nodes);
    return Ok((refs.value, routes));
  }

  // ---- The routes are the edges between neighbouring stages. ----

  function Flatten(nodes: seq<Node>): seq<Stage> {
    if nodes == [] then [] else nodes[0].stages + Flatten(nodes[1..])
  }

  lemma {:induction false} LinksAre(from: seq<string>, to: seq<string>, r: Route)
    ensures r in Links(from, to) <==> r.from in from && r.to in to
  {
    if from != [] {
      LinksAre(from[1..], to, r);
      if r.from == from[0] && r.to in to {
        var i :| 0 <= i < |to| && to[i] == r.to;
        assert LinkTo(from[0], to)[i] == r;
      }
    }
  }

  lemma {:induction false} StageRoutesAre(groups: Groups, r: Route)
    ensures r in StageRoutes(groups) <==> CrossRoute(groups, r)
  {
    if |groups| >= 2 {
      LinksAre(groups[0], groups[1], r);
      StageRoutesAre(groups[1..], r);
      CrossSplit([groups[0]], groups[1..], r);
      assert [groups[0]] + groups[1..] == groups;
    }
  }

  /** A crossing of two lists laid end to end is in one of them or between them. */
  lemma CrossSplit(a: Groups, b: Groups, r: Route)
    requires a != [] && b != []
    ensures CrossRoute(a + b, r) <==>
      CrossRoute(a, r) || CrossRoute(b, r) || (r.from in a[|a| - 1] && r.to in b[0])
  {
    var c := a + b;
    if CrossRoute(c, r) {
      var k :| 0 <= k < |c| - 1 && r.from in c[k] && r.to in c[k + 1];
      if k < |a| - 1 {
        assert c[k] == a[k] && c[k + 1] == a[k + 1];
      } else if k >= |a| {
        assert c[k] == b[k - |a|] && c[k + 1] == b[k - |a| + 1];
      }
    }
    if CrossRoute(a, r) {
      var k :| 0 <= k < |a| - 1 && r.from in a[k] && r.to in a[k + 1];
      assert c[k] == a[k] && c[k + 1] == a[k + 1];
    }
    if CrossRoute(b, r) {
      var k :| 0 <= k < |b| - 1 && r.from in b[k] && r.to in b[k + 1];
      assert c[k + |a|] == b[k] && c[k + |a| + 1] == b[k + 1];
    }
    assert c[|a| - 1] == a[|a| - 1] && c[|a|] == b[0];
  }

  lemma NameGroupsConcat(a: seq<Stage>, b: seq<Stage>)
    ensures NameGroups(a + b) == NameGroups(a) + NameGroups(b)
  {
  }

  lemma RoutesHead(nodes: seq<Node>, r: Route)
    requires Stageful(nodes) && nodes != []
    ensures r in RoutesOf(nodes) <==>
      || r in StageRoutes(NameGroups(nodes[0].stages))
      || r in RoutesOf(nodes[1..])
      || (|nodes| > 1 && r in Links(Exits(nodes[0]), Entries(nodes[1])))
  {
  }

  /** Whatever the segments, the routes lead from each flattened stage to the next, and only there. */
  lemma {:induction false} RoutesCrossStages(nodes: seq<Node>, r: Route)
    requires Stageful(nodes)
    ensures r in RoutesOf(nodes) <==> CrossRoute(NameGroups(Flatten(nodes)), r)
  {
    if nodes != [] {
      var head, tail := nodes[0].stages, nodes[1..];
      assert nodes[0] in nodes;
      RoutesHead(nodes, r);
      StageRoutesAre(NameGroups(head), r);
      RoutesCrossStages(tail, r);
      NameGroupsConcat(head, Flatten(tail));
      if tail == [] {
        assert NameGroups(head) + [] == NameGroups(head);
      } else {
        assert tail[0] in nodes && Flatten(tail)[0] == tail[0].stages[0];
        CrossSplit(NameGroups(head), NameGroups(Flatten(tail)), r);
        LinksAre(Exits(nodes[0]), Entries(nodes[1]), r);
      }
    }
  }

  function StepNames(steps: seq<Placed>): seq<string> {
    seq(|steps|, i requires 0 <= i < |steps| => steps[i].token.name)
  }

  lemma {:induction false} PlacedStageNames(stages: seq<Stage>, mapId: string)
    ensures StepNames(PlaceStages(stages, mapId)) == Flat(NameGroups(stages))
  {
    if stages != [] {
      PlacedStageNames(stages[1..], mapId);
      assert NameGroups(stages)[1..] == NameGroups(stages[1..]);
      assert StepNames(PlaceStage(stages[0], mapId)) == StageNames(stages[0]);
    }
  }

  lemma {:induction false} FlatConcat(a: Groups, b: Groups)
    ensures Flat(a + b) == Flat(a) + Flat(b)
  {
    if a == [] {
      assert a + b == b;
    } else {
      assert (a + b)[1..] == a[1..] + b;
      FlatConcat(a[1..], b);
    }
  }

  lemma {:induction false} PlacedNames(nodes: seq<Node>)
    ensures StepNames(Place(nodes)) == Flat(NameGroups(Flatten(nodes)))
  {
    if nodes != [] {
      PlacedNames(nodes[1..]);
      PlacedStageNames(nodes[0].stages, nodes[0].mapId);
      NameGroupsConcat(nodes[0].stages, Flatten(nodes[1..]));
      FlatConcat(NameGroups(nodes[0].stages), NameGroups(Flatten(nodes[1..])));
    }
  }

  lemma {:induction false} FlattenHas(nodes: seq<Node>, st: Stage)
    requires st in Flatten(nodes)
    ensures exists node :: node in nodes && st in node.stages
  {
    if st in nodes[0].stages {
      assert nodes[0] in nodes;
    } else {
      FlattenHas(nodes[1..], st);
    }
  }

  /** The routes of an accepted pipeline with distinct names are staged by its flattened brackets. */
  lemma CompiledIsStaged(dsl: string)
    requires ParseDsl(dsl).Ok?
    requires var nodes := ParseDsl(dsl).value; Distinct(StepNames(Place(nodes)))
    ensures var nodes := ParseDsl(dsl).value;
      Stageful(nodes) && Staged(NameGroups(Flatten(nodes)), RoutesOf(nodes)) && Flatten(nodes) != []
    ensures forall st :: st in Flatten(ParseDsl(dsl).value) ==> Printable(st)
  {
    var nodes := ParseDsl(dsl).value;
    ParsedIsPrintable(dsl);
    PlacedNames(nodes);
    var groups := NameGroups(Flatten(nodes));
    forall st | st in Flatten(nodes) ensures Printable(st) { FlattenHas(nodes, st); }
    forall k | 0 <= k < |groups| ensures groups[k] != [] {
      assert Flatten(nodes)[k] in Flatten(nodes);
    }
    forall r ensures r in RoutesOf(nodes) <==> CrossRoute(groups, r) { RoutesCrossStages(nodes, r); }
    assert nodes[0] in nodes;
  }

  /** Which configurations name a repository, and which: exactly those whose secret references are the clone URL
      of it and nothing else. */
  lemma RepoReadExactly(with: Object, url: string)
    requires url != ""
    ensures GitRepoFromStepWith(with) == url <==>
      "secret_refs" in with && with["secret_refs"] == JObj(map["GIT_CLONE_URL" := JStr("git:" + url)])
    ensures GitRepoStepWith(url) == map["secret_refs" := JObj(map["GIT_CLONE_URL" := JStr("git:" + url)])]
  {
    assert ("git:" + url)[4..] == url;
    if GitRepoFromStepWith(with) == url {
      var refs := with["secret_refs"].fields;
      assert refs["GIT_CLONE_URL"].s == "git:" + url;
      assert |refs.Keys| == |refs| == 1;
      assert refs.Keys == {"GIT_CLONE_URL"} by {
        assert "GIT_CLONE_URL" in refs.Keys && |refs.Keys - {"GIT_CLONE_URL"}| == 0;
      }
    }
  }
}
