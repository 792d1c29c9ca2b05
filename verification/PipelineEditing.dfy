/** The pipeline edit form: a stored pipeline is opened as one line of text, and saving the text replaces
    its steps, its routes and everything declared beside them. */
module PipelineEditing {
  import opened Options
  import opened Text
  import opened JsonValues
  import opened Ranks
  import opened StageOrder
  import opened PipelineDsl
  import opened PipelineParser
  import opened PipelineCompiler
  import opened PipelinePrinter
  import StepConversion

  type Ref = StepConversion.Ref
  type Definitions = map<string, StepConversion.StepDef>

  // ---- What the form is opened with. ----

  /** A stored route; without a condition it is taken when its source completes. */
  datatype Edge = Edge(from: string, to: string, when: string, name: string)

  /** A stored pipeline, with what it declares beside its steps. */
  datatype Pipeline = Pipeline(refs: seq<Ref>, routes: seq<Edge>,
    inputs: seq<Json>, outputs: seq<Json>, maps: seq<Json>, loops: seq<Json>)

  /** A reference as the server answers with it: merged with its step's definition, and left out when that
      is gone.  Without a rank, as the form's loader computes none; what a gate holds is not looked at. */
  function Shown(r: Ref, steps: Definitions): Option<Step> {
    if r.approval.Some? then Some(Step("", if r.name != "" then r.name else "approval", "approval", map[], false, true, None))
    else if r.stepId == "" && r.action != "" then Some(Step("", r.name, r.action, r.with, r.matrix.Some?, false, None))
    else if r.stepId !in steps then None
    else
      var d := steps[r.stepId];
      Some(Step(r.stepId, if r.name != "" then r.name else d.name, d.action, d.with + r.with, r.matrix.Some?, false, None))
  }

  function ShownAll(refs: seq<Ref>, steps: Definitions): seq<Step> {
    if refs == [] then []
    else (match Shown(refs[0], steps) case Some(s) => [s] case None => []) + ShownAll(refs[1..], steps)
  }

  predicate Expressible(refs: seq<Ref>, steps: Definitions) { forall s :: s in ShownAll(refs, steps) ==> StepDslExpressible(s) }

  /** The text of the form, unless the pipeline is refused. */
  function Opened(p: Pipeline, steps: Definitions): Option<string> {
    if Expressible(p.refs, steps) then Some(Printed(ShownAll(p.refs, steps))) else None
  }

  // ---- What saving stores. ----

  function SavedRef(s: StepRef): Ref {
    StepConversion.Ref(s.stepId, "", 0, s.name, s.with, None, None, s.mapId, "", None, false, [])
  }

  function SavedRefs(refs: seq<StepRef>): seq<Ref> { seq(|refs|, i requires 0 <= i < |refs| => SavedRef(refs[i])) }

  function SavedRoutes(routes: seq<Route>): seq<Edge> {
    seq(|routes|, i requires 0 <= i < |routes| => Edge(routes[i].from, routes[i].to, "", ""))
  }

  lemma ParsedIsStageful(dsl: string)
    requires ParseDsl(dsl).Ok?
    ensures Stageful(ParseDsl(dsl).value)
  {
    ParsedIsPrintable(dsl);
  }

  /** The pipeline that the text is saved as, if it is accepted: nothing but steps and routes. */
  function Saved(dsl: string, catalog: map<string, string>): Option<Pipeline> {
    var text := TrimSpace(dsl);
    if text == "" || ParseDsl(text).Err? then None
    else
      var nodes := ParseDsl(text).value;
      match Resolve(Place(nodes), catalog)
      case Err(_) => None
      case Ok(refs) =>
        ParsedIsStageful(text);
        Some(Pipeline(SavedRefs(refs), SavedRoutes(RoutesOf(nodes)), [], [], [], []))
  }

  // ---- The same pipeline. ----

  function NamesOf(steps: seq<Step>): seq<string> { seq(|steps|, i requires 0 <= i < |steps| => steps[i].name) }

  function Chain(names: seq<string>): seq<Edge> {
    if |names| < 2 then [] else seq(|names| - 1, i requires 0 <= i < |names| - 1 => Edge(names[i], names[i + 1], "", ""))
  }

  /** The routes a run follows: a pipeline without any is a sequence. */
  function Edges(p: Pipeline, steps: Definitions): seq<Edge> {
    if p.routes == [] then Chain(NamesOf(ShownAll(p.refs, steps))) else p.routes
  }

  predicate SameEdges(a: seq<Edge>, b: seq<Edge>) { (forall e :: e in a ==> e in b) && (forall e :: e in b ==> e in a) }

  /** The reference is to the same step, does what the other does, and names the repository that was shown. */
  predicate SameStep(r: Ref, again: Ref, steps: Definitions) {
    && again.stepId == r.stepId && StepConversion.Run(again, steps) == StepConversion.Run(r, steps)
    && Shown(r, steps).Some? && GitRepoFromStepWith(again.with) == GitRepoFromStepWith(Shown(r, steps).value.with)
  }

  predicate SamePipeline(p: Pipeline, again: Pipeline, steps: Definitions) {
    && |again.refs| == |p.refs| && (forall i :: 0 <= i < |p.refs| ==> SameStep(p.refs[i], again.refs[i], steps))
    && SameEdges(Edges(again, steps), Edges(p, steps))
    && again.inputs == p.inputs && again.outputs == p.outputs && again.maps == p.maps && again.loops == p.loops
  }

  // ---- Steps without ranks print one after the other. ----

  lemma {:induction false} SegmentsUnranked(marks: seq<Mark>)
    requires forall m :: m in marks ==> m.stage.None?
    ensures Segments(marks) == Texts(marks)
  {
    if marks != [] {
      assert marks[0] in marks;
      SegmentsUnranked(marks[1..]);
    }
  }

  predicate Tokened(steps: seq<Step>, ts: Stage) {
    |ts| == |steps| && forall i :: 0 <= i < |steps| ==> steps[i].stage.None? && DslStepToken(steps[i]) == TokenText(ts[i])
  }

  lemma PrintedUnranked(steps: seq<Step>, ts: Stage)
    requires Tokened(steps, ts)
    ensures Printed(steps) == Join(StageTexts(Spread(ts)), ARROW)
  {
    SegmentsUnranked(Marks(steps));
    assert Texts(Marks(steps)) == StageTexts(Spread(ts));
  }

  /** Every token can be written and read on its own. */
  predicate Writable(ts: Stage) { forall t :: t in ts ==> Printable([t]) }

  lemma SpreadPrintable(ts: Stage)
    requires Writable(ts)
    ensures forall st :: st in Spread(ts) ==> Printable(st)
  {
    forall st | st in Spread(ts) ensures Printable(st) {
      var i :| 0 <= i < |ts| && st == [ts[i]];
      assert ts[i] in ts;
    }
  }

  lemma {:induction false} ArrowsTrimmed(texts: seq<string>)
    requires texts != [] && forall x :: x in texts ==> x != "" && Trimmed(x)
    ensures Join(texts, ARROW) != "" && Trimmed(Join(texts, ARROW))
  {
    assert texts[0] in texts;
    if |texts| > 1 {
      forall x | x in texts[1..] ensures x in texts {}
      ArrowsTrimmed(texts[1..]);
      assert Join(texts, ARROW) == texts[0] + ARROW + Join(texts[1..], ARROW);
    }
  }

  /** Writable tokens joined by arrows are read as those tokens, one per segment. */
  lemma UnrankedReads(ts: Stage)
    requires ts != [] && Writable(ts)
    ensures var text, nodes := Join(StageTexts(Spread(ts)), ARROW), SingleStageNodes(Spread(ts));
      && TrimSpace(text) == text != "" && ParseDsl(text) == Ok(nodes) && Stageful(nodes) && Flatten(nodes) == Spread(ts)
      && |Place(nodes)| == |ts| && forall i :: 0 <= i < |ts| ==> Place(nodes)[i] == Placed(ts[i], "")
  {
    SpreadPrintable(ts);
    RereadPipeline(Spread(ts));
    forall x | x in StageTexts(Spread(ts)) ensures x != "" && Trimmed(x) {
      var i :| 0 <= i < |ts| && x == TokenText(ts[i]);
      assert ts[i] in ts && [ts[i]][0] == ts[i];
      RereadToken(ts[i]);
    }
    ArrowsTrimmed(StageTexts(Spread(ts)));
    TrimSpaceIdentity(Join(StageTexts(Spread(ts)), ARROW));
    SpreadTokens(ts);
    PlaceSingles(Spread(ts));
    FlattenSingles(Spread(ts));
  }

  predicate Follows(ts: Stage, r: Route, k: int) { 0 <= k < |ts| - 1 && r == Route(ts[k].name, ts[k + 1].name) }

  ghost predicate StepByStep(ts: Stage, routes: seq<Route>) { forall r :: r in routes <==> exists k :: Follows(ts, r, k) }

  /** The routes of such text lead from each step to the next. */
  lemma UnrankedRoutes(ts: Stage, r: Route)
    ensures Stageful(SingleStageNodes(Spread(ts)))
    ensures r in RoutesOf(SingleStageNodes(Spread(ts))) <==> exists k :: Follows(ts, r, k)
  {
    FlattenSingles(Spread(ts));
    RoutesCrossStages(SingleStageNodes(Spread(ts)), r);
    var groups := NameGroups(Spread(ts));
    assert forall k :: 0 <= k < |ts| ==> groups[k] == [ts[k].name];
    if CrossRoute(groups, r) {
      var k :| 0 <= k < |groups| - 1 && r.from in groups[k] && r.to in groups[k + 1];
      assert Follows(ts, r, k);
    }
    if k :| Follows(ts, r, k) {
      assert r.from in groups[k] && r.to in groups[k + 1];
    }
  }

  lemma AllUnrankedRoutes(ts: Stage)
    ensures var nodes := SingleStageNodes(Spread(ts)); Stageful(nodes) && StepByStep(ts, RoutesOf(nodes))
  {
    var nodes := SingleStageNodes(Spread(ts));
    forall r ensures Stageful(nodes) && (r in RoutesOf(nodes) <==> exists k :: Follows(ts, r, k)) { UnrankedRoutes(ts, r); }
  }

  // ---- Compiled text, opened and saved. ----

  /** Compiled references as the form sees them, of steps whose definitions hold no configuration. */
  function Unranked(refs: seq<StepRef>): seq<Step> {
    seq(|refs|, i requires 0 <= i < |refs| => Step(refs[i].stepId, refs[i].name, "", refs[i].with, false, false, None))
  }

  predicate OneByOne(nodes: seq<Node>) { forall st :: st in Flatten(nodes) ==> |st| == 1 }

  lemma CompiledTokens(dsl: string, catalog: map<string, string>)
    requires ParseDsl(dsl).Ok? && Resolve(Place(ParseDsl(dsl).value), catalog).Ok?
    requires Distinct(StepNames(Place(ParseDsl(dsl).value)))
    ensures var nodes := ParseDsl(dsl).value; var ts := Tokens(Flatten(nodes));
      ts != [] && Writable(ts) && Tokened(Unranked(Resolve(Place(nodes), catalog).value), ts)
  {
    var nodes := ParseDsl(dsl).value;
    var ts := Tokens(Flatten(nodes));
    CompiledIsStaged(dsl);
    PlacedTokens(nodes);
    ResolvedRefs(Place(nodes), catalog);
    forall i | 0 <= i < |ts| ensures Unranked(Resolve(Place(nodes), catalog).value)[i].stage.None?
        && DslStepToken(Unranked(Resolve(Place(nodes), catalog).value)[i]) == TokenText(ts[i]) {
      RepoRoundTrip(ts[i].repo);
    }
    forall t | t in ts ensures Printable([t]) { WritableOfStages(Flatten(nodes), t); }
    assert Flatten(nodes)[0] in Flatten(nodes);
  }

  lemma {:induction false} WritableOfStages(stages: seq<Stage>, t: StepToken)
    requires t in Tokens(stages) && forall st :: st in stages ==> Printable(st)
    ensures Printable([t])
  {
    assert stages[0] in stages;
    if t in stages[0] {
      AloneIsPrintable(stages[0], t);
    } else {
      WritableOfStages(stages[1..], t);
    }
  }

  lemma AloneIsPrintable(st: Stage, t: StepToken)
    requires Printable(st) && t in st
    ensures Printable([t])
  {
    RereadToken(t);
    if |st| == 1 { assert st == [t]; } else { assert TokenText(t)[0] in TokenText(t); }
  }

  /** Routes of the stages are those of the steps one by one exactly when every stage has one step. */
  lemma RoutesKeepExactly(stages: seq<Stage>, routes: seq<Route>, again: seq<Route>)
    requires Staged(NameGroups(stages), routes)
    requires StepByStep(Tokens(stages), again)
    ensures SameRoutes(routes, again) <==> forall st :: st in stages ==> |st| == 1
  {
    TokenCounts(stages, 0);
    if forall st :: st in stages ==> |st| == 1 {
      SinglesAreTokens(stages);
      forall r ensures r in routes <==> r in again { SinglesCross(stages, r); }
    } else {
      var m :| 0 <= m < |stages| && |stages[m]| != 1;
      assert NameGroups(stages)[m] != [] && |stages[m]| > 1;
      MissingRoute(stages, m, routes, again);
    }
  }

  lemma {:induction false} SinglesAreTokens(stages: seq<Stage>)
    requires forall st :: st in stages ==> |st| == 1
    ensures |Tokens(stages)| == |stages| && forall i :: 0 <= i < |stages| ==> stages[i] == [Tokens(stages)[i]]
  {
    if stages != [] {
      assert stages[0] in stages;
      SinglesAreTokens(stages[1..]);
    }
  }

  lemma SinglesCross(stages: seq<Stage>, r: Route)
    requires |Tokens(stages)| == |stages| && forall i :: 0 <= i < |stages| ==> stages[i] == [Tokens(stages)[i]]
    ensures CrossRoute(NameGroups(stages), r) <==> exists k :: Follows(Tokens(stages), r, k)
  {
    var groups, ts := NameGroups(stages), Tokens(stages);
    assert forall k :: 0 <= k < |ts| ==> groups[k] == [ts[k].name];
    if CrossRoute(groups, r) {
      var k :| 0 <= k < |groups| - 1 && r.from in groups[k] && r.to in groups[k + 1];
      assert Follows(ts, r, k);
    }
    if k :| Follows(ts, r, k) {
      assert r.from in groups[k] && r.to in groups[k + 1];
    }
  }

  lemma {:induction false} TokenNames(stages: seq<Stage>)
    ensures |Tokens(stages)| == |Flat(NameGroups(stages))|
    ensures forall i :: 0 <= i < |Tokens(stages)| ==> Tokens(stages)[i].name == Flat(NameGroups(stages))[i]
  {
    if stages != [] {
      assert NameGroups(stages)[1..] == NameGroups(stages[1..]);
      TokenNames(stages[1..]);
    }
  }

  /** Where stage m starts among the steps. */
  lemma {:induction false} StageStart(groups: Groups, m: nat) returns (i: nat)
    requires m < |groups| && |groups[m]| > 1
    ensures i + 1 < |Flat(groups)| && StageAt(groups, i) == m == StageAt(groups, i + 1)
  {
    if m == 0 {
      i := 0;
    } else {
      i := StageStart(groups[1..], m - 1);
      i := i + |groups[0]|;
    }
  }

  /** Between the first two steps of a stage there is no route, and there is one after they came apart. */
  lemma MissingRoute(stages: seq<Stage>, m: nat, routes: seq<Route>, again: seq<Route>)
    requires Staged(NameGroups(stages), routes) && m < |stages| && |stages[m]| > 1
    requires StepByStep(Tokens(stages), again)
    ensures !SameRoutes(routes, again)
  {
    var groups, ts := NameGroups(stages), Tokens(stages);
    var i := StageStart(groups, m);
    TokenNames(stages);
    var r := Route(ts[i].name, ts[i + 1].name);
    assert Follows(ts, r, i);
    if CrossRoute(groups, r) {
      var k :| 0 <= k < |groups| - 1 && r.from in groups[k] && r.to in groups[k + 1];
      StageOfName(groups, i, k);
      StageOfName(groups, i + 1, k + 1);
    }
  }

  /** Open and save: for every accepted pipeline text with distinct known step names, the form's text
      compiles again, to the same references and the same set of routes exactly when no step was in a map
      region and every stage has one step. */
  lemma OpenAndSave(dsl: string, catalog: map<string, string>)
    requires ParseDsl(dsl).Ok?
    requires var nodes := ParseDsl(dsl).value;
      Distinct(StepNames(Place(nodes))) && Resolve(Place(nodes), catalog).Ok? && Stageful(nodes)
    ensures var nodes := ParseDsl(dsl).value;
      var refs := Resolve(Place(nodes), catalog).value;
      var out := Printed(Unranked(refs));
      && TrimSpace(out) == out && ParseDsl(out).Ok?
      && Resolve(Place(ParseDsl(out).value), catalog).Ok? && Stageful(ParseDsl(out).value)
      && ((Resolve(Place(ParseDsl(out).value), catalog).value == refs && SameRoutes(RoutesOf(nodes), RoutesOf(ParseDsl(out).value)))
          <==> NoMapRegion(nodes) && OneByOne(nodes))
  {
    var nodes := ParseDsl(dsl).value;
    var refs := Resolve(Place(nodes), catalog).value;
    var ts := Tokens(Flatten(nodes));
    CompiledTokens(dsl, catalog);
    PrintedUnranked(Unranked(refs), ts);
    UnrankedReads(ts);
    SpreadPrintable(ts);
    SpreadTokens(ts);
    Recompiled(nodes, catalog, Spread(ts));
    var again := SingleStageNodes(Spread(ts));
    RefsKeepUnlessMapped(nodes, catalog, Resolve(Place(again), catalog).value);
    RoutesKeepOneByOne(dsl);
  }

  lemma RoutesKeepOneByOne(dsl: string)
    requires ParseDsl(dsl).Ok?
    requires var nodes := ParseDsl(dsl).value; Distinct(StepNames(Place(nodes))) && Stageful(nodes)
    ensures var nodes := ParseDsl(dsl).value;
      var again := SingleStageNodes(Spread(Tokens(Flatten(nodes))));
      Stageful(again) && (SameRoutes(RoutesOf(nodes), RoutesOf(again)) <==> OneByOne(nodes))
  {
    var nodes := ParseDsl(dsl).value;
    var ts := Tokens(Flatten(nodes));
    var again := SingleStageNodes(Spread(ts));
    CompiledIsStaged(dsl);
    AllUnrankedRoutes(ts);
    RoutesKeepExactly(Flatten(nodes), RoutesOf(nodes), RoutesOf(again));
  }

  // ---- Any stored pipeline, opened and saved. ----

  /** The token a step is printed as. */
  function TokenOf(s: Step): StepToken { StepToken(s.name, GitRepoFromStepWith(s.with)) }

  function TokensOf(steps: seq<Step>): Stage { seq(|steps|, i requires 0 <= i < |steps| => TokenOf(steps[i])) }

  /** Beside the secret references the override holds nothing that the stored step does not hold as well. */
  predicate OnlySecretRefs(r: Ref, steps: Definitions) {
    r.stepId in steps && forall k :: k in r.with && k != "secret_refs" ==> k in steps[r.stepId].with && steps[r.stepId].with[k] == r.with[k]
  }

  /** The reference uses nothing that the text has no place for. */
  predicate Unadorned(r: Ref) {
    r.mapId == "" && r.loopId == "" && !r.allowUnresolved && r.permissions == [] && r.scatter.None?
  }

  /** The step can be written, its name is known as its own, and nothing of it is lost. */
  predicate Survives(r: Ref, steps: Definitions, catalog: map<string, string>) {
    && Shown(r, steps).Some? && OnlySecretRefs(r, steps) && Unadorned(r)
    && var t := TokenOf(Shown(r, steps).value);
       Printable([t]) && t.name in catalog && catalog[t.name] == r.stepId
  }

  lemma OneEntryExactly(def: Object, over: Object, key: string)
    requires key in def + over
    ensures def[key := (def + over)[key]] == def + over <==> forall k :: k in over && k != key ==> k in def && def[k] == over[k]
  {
    var kept, w := def[key := (def + over)[key]], def + over;
    if kept == w {
      forall k | k in over && k != key ensures k in def && def[k] == over[k] {
        assert k in kept && kept[k] == w[k];
      }
    } else {
      if forall k :: k in over && k != key ==> k in def && def[k] == over[k] {
        assert forall k :: k in kept <==> k in w;
      }
    }
  }

  lemma NothingMerged(def: Object, over: Object)
    requires def + over == map[]
    ensures def == map[] && over == map[]
  {
    assert (def + over).Keys == def.Keys + over.Keys;
  }

  /** A merged configuration of which the text keeps the repository. */
  lemma OverrideKeptExactly(def: Object, over: Object)
    requires var w := def + over; w == map[] || GitRepoFromStepWith(w) != ""
    ensures def + GitRepoStepWith(GitRepoFromStepWith(def + over)) == def + over <==>
      forall k :: k in over && k != "secret_refs" ==> k in def && def[k] == over[k]
  {
    if def + over == map[] {
      NothingMerged(def, over);
    } else {
      RepoRefs(def + over);
      OneEntryExactly(def, over, "secret_refs");
      AddedEntry(def, GitRepoStepWith(GitRepoFromStepWith(def + over)), "secret_refs");
    }
  }

  lemma AddedEntry(def: Object, one: Object, key: string)
    requires one.Keys == {key}
    ensures def + one == def[key := one[key]]
  {
  }

  /** The secret references that name a repository. */
  lemma RepoRefs(w: Object)
    requires GitRepoFromStepWith(w) != ""
    ensures "secret_refs" in w && w["secret_refs"] == GitRepoStepWith(GitRepoFromStepWith(w))["secret_refs"]
  {
    var refs := w["secret_refs"].fields;
    assert |refs.Keys| == |refs| == 1 && GIT_CLONE_ENV in refs.Keys;
    OnlyMember(refs.Keys, GIT_CLONE_ENV);
    assert refs[GIT_CLONE_ENV].s == "git:" + GitRepoFromStepWith(w);
    assert refs == map[GIT_CLONE_ENV := JStr("git:" + GitRepoFromStepWith(w))];
  }

  /** What the server runs for a stored reference that the form accepts. */
  lemma StoredRuns(r: Ref, steps: Definitions)
    requires "" !in steps && r.stepId in steps && Shown(r, steps).Some? && StepDslExpressible(Shown(r, steps).value)
    ensures var d := steps[r.stepId];
      && Shown(r, steps).value.with == d.with + r.with
      && StepConversion.Run(r, steps) == Some(StepConversion.Step(Shown(r, steps).value.name, d.action, d.with + r.with,
           StepConversion.Bounded(d.timeout), None, r.scatter, r.mapId, r.loopId, r.allowUnresolved, r.permissions))
  {
  }

  lemma SavedRuns(s: StepRef, steps: Definitions)
    requires "" !in steps && s.stepId in steps && s.name != ""
    ensures var d := steps[s.stepId];
      StepConversion.Run(SavedRef(s), steps) == Some(StepConversion.Step(s.name, d.action, d.with + s.with,
        StepConversion.Bounded(d.timeout), None, None, s.mapId, "", false, []))
  {
  }

  /** A step the form accepts, read back as the token it was printed as: it is the same step exactly when
      its name is known as its own and nothing of it is lost. */
  lemma StepSurvivesExactly(r: Ref, steps: Definitions, id: string)
    requires "" !in steps && r.stepId in steps && Shown(r, steps).Some? && StepDslExpressible(Shown(r, steps).value)
    requires Shown(r, steps).value.name != ""
    ensures var t := TokenOf(Shown(r, steps).value);
      SameStep(r, SavedRef(StepRef(id, t.name, GitRepoStepWith(t.repo), "")), steps) <==>
        id == r.stepId && OnlySecretRefs(r, steps) && Unadorned(r)
  {
    var t := TokenOf(Shown(r, steps).value);
    StoredRuns(r, steps);
    OverrideKeptExactly(steps[r.stepId].with, r.with);
    RepoRoundTrip(t.repo);
    if id == r.stepId { SavedRuns(StepRef(id, t.name, GitRepoStepWith(t.repo), ""), steps); }
  }

  lemma {:induction false} ShownOneByOne(refs: seq<Ref>, steps: Definitions)
    requires forall r :: r in refs ==> Shown(r, steps).Some?
    ensures |ShownAll(refs, steps)| == |refs|
    ensures forall i :: 0 <= i < |refs| ==> ShownAll(refs, steps)[i] == Shown(refs[i], steps).value
  {
    if refs != [] {
      assert refs[0] in refs;
      forall r | r in refs[1..] ensures r in refs {}
      ShownOneByOne(refs[1..], steps);
    }
  }

  lemma {:induction false} ShownUnranked(refs: seq<Ref>, steps: Definitions)
    ensures forall s :: s in ShownAll(refs, steps) ==> s.stage.None?
  {
    if refs != [] { ShownUnranked(refs[1..], steps); }
  }

  predicate Joins(names: seq<string>, e: Edge, k: int) { 0 <= k < |names| - 1 && e == Edge(names[k], names[k + 1], "", "") }

  /** What writable tokens are saved as. */
  ghost predicate SavedFrom(ts: Stage, catalog: map<string, string>, q: Pipeline) {
    && |q.refs| == |ts|
    && (forall i :: 0 <= i < |ts| ==>
          && ts[i].name in catalog
          && q.refs[i] == SavedRef(StepRef(catalog[ts[i].name], ts[i].name, GitRepoStepWith(ts[i].repo), "")))
    && (forall e :: e in q.routes <==> exists k :: Joins(StageNames(ts), e, k))
    && q.inputs == [] && q.outputs == [] && q.maps == [] && q.loops == []
  }

  predicate Known(ts: Stage, catalog: map<string, string>) { forall t :: t in ts ==> t.name in catalog }

  lemma RoutesAsEdges(ts: Stage, routes: seq<Route>, e: Edge)
    requires StepByStep(ts, routes)
    ensures e in SavedRoutes(routes) <==> exists k :: Joins(StageNames(ts), e, k)
  {
    if e in SavedRoutes(routes) {
      var j :| 0 <= j < |routes| && e == Edge(routes[j].from, routes[j].to, "", "");
      assert routes[j] in routes;
      var k :| Follows(ts, routes[j], k);
      assert Joins(StageNames(ts), e, k);
    }
    if k :| Joins(StageNames(ts), e, k) {
      var r := Route(ts[k].name, ts[k + 1].name);
      assert Follows(ts, r, k);
      assert r in routes;
      var j :| 0 <= j < |routes| && routes[j] == r;
      assert SavedRoutes(routes)[j] == e;
    }
  }

  /** Writable tokens are saved exactly when their names are known. */
  lemma WritableSaved(ts: Stage, catalog: map<string, string>)
    requires ts != [] && Writable(ts)
    ensures var q := Saved(Join(StageTexts(Spread(ts)), ARROW), catalog);
      (q.Some? <==> Known(ts, catalog)) && (q.Some? ==> SavedFrom(ts, catalog, q.value))
  {
    UnrankedReads(ts);
    var nodes := SingleStageNodes(Spread(ts));
    var q := Saved(Join(StageTexts(Spread(ts)), ARROW), catalog);
    if Known(ts, catalog) { ResolveSucceeds(Place(nodes), catalog); }
    if q.Some? {
      ResolvedRefs(Place(nodes), catalog);
      AllUnrankedRoutes(ts);
      forall e ensures e in q.value.routes <==> exists k :: Joins(StageNames(ts), e, k) {
        RoutesAsEdges(ts, RoutesOf(nodes), e);
      }
    }
  }

  /** The routes of the pipeline lead from each step to the next and nowhere else. */
  predicate Sequential(p: Pipeline, steps: Definitions) {
    p.routes == [] || SameEdges(p.routes, Chain(NamesOf(ShownAll(p.refs, steps))))
  }

  predicate NothingDeclared(p: Pipeline) { p.inputs == [] && p.outputs == [] && p.maps == [] && p.loops == [] }

  lemma ShownTokened(p: Pipeline, steps: Definitions)
    requires Opened(p, steps).Some?
    ensures var shown := ShownAll(p.refs, steps);
      Tokened(shown, TokensOf(shown)) && Opened(p, steps).value == Join(StageTexts(Spread(TokensOf(shown))), ARROW)
  {
    var shown := ShownAll(p.refs, steps);
    ShownUnranked(p.refs, steps);
    PrintedUnranked(shown, TokensOf(shown));
  }

  /** What a saved pipeline was read from. */
  lemma SavedTokens(dsl: string, catalog: map<string, string>)
    requires Saved(dsl, catalog).Some?
    ensures var q, text := Saved(dsl, catalog).value, TrimSpace(dsl);
      && ParseDsl(text).Ok?
      && var ts := Tokens(Flatten(ParseDsl(text).value));
         |q.refs| == |ts| && forall i :: 0 <= i < |ts| ==>
           && ts[i].name in catalog
           && q.refs[i] == SavedRef(StepRef(catalog[ts[i].name], ts[i].name, GitRepoStepWith(ts[i].repo), q.refs[i].mapId))
  {
    var nodes := ParseDsl(TrimSpace(dsl)).value;
    ResolvedRefs(Place(nodes), catalog);
    PlacedTokens(nodes);
  }

  /** Steps that come back are read as the tokens they were printed as. */
  lemma SameStepsSameTokens(p: Pipeline, steps: Definitions, q: Pipeline, ts: Stage, catalog: map<string, string>)
    requires "" !in steps && (forall n :: n in catalog ==> catalog[n] in steps) && SamePipeline(p, q, steps)
    requires |q.refs| == |ts| && forall i :: 0 <= i < |ts| ==>
      && ts[i].name in catalog && ts[i].name != ""
      && q.refs[i] == SavedRef(StepRef(catalog[ts[i].name], ts[i].name, GitRepoStepWith(ts[i].repo), q.refs[i].mapId))
    ensures forall r :: r in p.refs ==> Shown(r, steps).Some?
    ensures TokensOf(ShownAll(p.refs, steps)) == ts
  {
    forall r | r in p.refs ensures Shown(r, steps).Some? {
      var i :| 0 <= i < |p.refs| && p.refs[i] == r;
      assert SameStep(p.refs[i], q.refs[i], steps);
    }
    ShownOneByOne(p.refs, steps);
    forall i | 0 <= i < |ts| ensures TokensOf(ShownAll(p.refs, steps))[i] == ts[i] {
      assert SameStep(p.refs[i], q.refs[i], steps);
      NameAndRepo(p.refs[i], steps, StepRef(catalog[ts[i].name], ts[i].name, GitRepoStepWith(ts[i].repo), q.refs[i].mapId));
      RepoRoundTrip(ts[i].repo);
    }
  }

  /** Steps that come back can be written. */
  lemma SameStepsAreWritable(p: Pipeline, steps: Definitions, catalog: map<string, string>)
    requires "" !in steps && (forall n :: n in catalog ==> catalog[n] in steps) && Opened(p, steps).Some?
    requires var q := Saved(Opened(p, steps).value, catalog); q.Some? && SamePipeline(p, q.value, steps)
    ensures p.refs != [] && (forall r :: r in p.refs ==> Shown(r, steps).Some?) && Writable(TokensOf(ShownAll(p.refs, steps)))
  {
    var dsl := Opened(p, steps).value;
    SavedTokens(dsl, catalog);
    ReadTokensWritable(TrimSpace(dsl));
    var ts := Tokens(Flatten(ParseDsl(TrimSpace(dsl)).value));
    forall i | 0 <= i < |ts| ensures ts[i].name != "" { assert ts[i] in ts; }
    SameStepsSameTokens(p, steps, Saved(dsl, catalog).value, ts, catalog);
  }

  lemma ReadTokensWritable(text: string)
    requires ParseDsl(text).Ok?
    ensures var ts := Tokens(Flatten(ParseDsl(text).value)); ts != [] && forall t :: t in ts ==> Printable([t]) && t.name != ""
  {
    var nodes := ParseDsl(text).value;
    ParsedIsPrintable(text);
    forall st | st in Flatten(nodes) ensures Printable(st) { FlattenHas(nodes, st); }
    assert nodes[0] in nodes && nodes[0].stages[0] in nodes[0].stages;
    assert Flatten(nodes)[0] == nodes[0].stages[0];
    forall t | t in Tokens(Flatten(nodes)) ensures Printable([t]) && t.name != "" {
      WritableOfStages(Flatten(nodes), t);
      assert [t][0] in [t];
    }
  }

  lemma NameAndRepo(r: Ref, steps: Definitions, s: StepRef)
    requires "" !in steps && s.stepId in steps && s.name != "" && SameStep(r, SavedRef(s), steps)
    ensures Shown(r, steps).value.name == s.name && GitRepoFromStepWith(Shown(r, steps).value.with) == GitRepoFromStepWith(s.with)
  {
  }

  lemma ChainEdges(names: seq<string>, e: Edge)
    ensures e in Chain(names) <==> exists k :: Joins(names, e, k)
  {
    if k :| Joins(names, e, k) {
      assert Chain(names)[k] == e;
    } else if e in Chain(names) {
      var k :| 0 <= k < |names| - 1 && Chain(names)[k] == e;
      assert Joins(names, e, k);
    }
  }

  /** Saved tokens are followed one by one. */
  lemma SavedEdges(p: Pipeline, steps: Definitions, ts: Stage, catalog: map<string, string>, q: Pipeline)
    requires ts == TokensOf(ShownAll(p.refs, steps)) && ts != [] && SavedFrom(ts, catalog, q)
    ensures SameEdges(Edges(q, steps), Edges(p, steps)) <==> Sequential(p, steps)
  {
    SavedChain(p, steps, ts, catalog, q);
  }

  lemma SavedChain(p: Pipeline, steps: Definitions, ts: Stage, catalog: map<string, string>, q: Pipeline)
    requires ts == TokensOf(ShownAll(p.refs, steps)) && ts != [] && SavedFrom(ts, catalog, q)
    ensures SameEdges(Edges(q, steps), Chain(NamesOf(ShownAll(p.refs, steps))))
  {
    var names := NamesOf(ShownAll(p.refs, steps));
    assert names == StageNames(ts);
    forall e ensures e in q.routes <==> e in Chain(names) { ChainEdges(names, e); }
    if |ts| > 1 {
      var e := Edge(names[0], names[1], "", "");
      assert Joins(names, e, 0);
      assert e in q.routes;
    } else {
      OneStepHasNoEdges(q, steps);
    }
  }

  lemma OneStepHasNoEdges(q: Pipeline, steps: Definitions)
    requires |q.refs| == 1
    ensures Chain(NamesOf(ShownAll(q.refs, steps))) == []
  {
    assert ShownAll(q.refs[1..], steps) == [];
  }

  lemma OneSurvives(r: Ref, steps: Definitions, catalog: map<string, string>)
    requires "" !in steps && Shown(r, steps).Some? && StepDslExpressible(Shown(r, steps).value)
    requires var t := TokenOf(Shown(r, steps).value); Printable([t]) && t.name in catalog
    ensures var t := TokenOf(Shown(r, steps).value);
      SameStep(r, SavedRef(StepRef(catalog[t.name], t.name, GitRepoStepWith(t.repo), "")), steps) <==> Survives(r, steps, catalog)
  {
    var t := TokenOf(Shown(r, steps).value);
    assert [t][0] in [t];
    StepSurvivesExactly(r, steps, catalog[t.name]);
  }

  lemma AllSurvive(p: Pipeline, q: Pipeline, steps: Definitions, catalog: map<string, string>)
    requires |q.refs| == |p.refs|
    requires forall i :: 0 <= i < |p.refs| ==> (SameStep(p.refs[i], q.refs[i], steps) <==> Survives(p.refs[i], steps, catalog))
    ensures (forall i :: 0 <= i < |p.refs| ==> SameStep(p.refs[i], q.refs[i], steps)) <==> forall r :: r in p.refs ==> Survives(r, steps, catalog)
  {
    if forall i :: 0 <= i < |p.refs| ==> SameStep(p.refs[i], q.refs[i], steps) {
      forall r | r in p.refs ensures Survives(r, steps, catalog) {
        var i :| 0 <= i < |p.refs| && p.refs[i] == r;
        assert SameStep(p.refs[i], q.refs[i], steps);
      }
    }
  }

  lemma WritableExactly(p: Pipeline, steps: Definitions, catalog: map<string, string>)
    requires "" !in steps && Opened(p, steps).Some? && p.refs != [] && forall r :: r in p.refs ==> Shown(r, steps).Some?
    requires Writable(TokensOf(ShownAll(p.refs, steps))) && Known(TokensOf(ShownAll(p.refs, steps)), catalog)
    ensures var q := Saved(Opened(p, steps).value, catalog);
      && q.Some?
      && (SamePipeline(p, q.value, steps) <==>
            (forall r :: r in p.refs ==> Survives(r, steps, catalog)) && Sequential(p, steps) && NothingDeclared(p))
  {
    var shown := ShownAll(p.refs, steps);
    var ts := TokensOf(shown);
    ShownTokened(p, steps);
    ShownOneByOne(p.refs, steps);
    WritableSaved(ts, catalog);
    var q := Saved(Opened(p, steps).value, catalog).value;
    SavedEdges(p, steps, ts, catalog, q);
    forall i | 0 <= i < |p.refs| ensures SameStep(p.refs[i], q.refs[i], steps) <==> Survives(p.refs[i], steps, catalog) {
      assert p.refs[i] in p.refs && shown[i] in shown && ts[i] in ts;
      OneSurvives(p.refs[i], steps, catalog);
    }
    AllSurvive(p, q, steps, catalog);
  }

  /** Opening any stored pipeline that the form accepts and saving it untouched stores the same pipeline
      exactly when it is a sequence with nothing declared beside its steps, and each step can be written,
      has a name that is known as its own, and uses nothing that the text has no place for. */
  lemma EditPipelineExactly(p: Pipeline, steps: Definitions, catalog: map<string, string>)
    requires "" !in steps && (forall n :: n in catalog ==> catalog[n] in steps) && Opened(p, steps).Some?
    ensures var q := Saved(Opened(p, steps).value, catalog);
      (q.Some? && SamePipeline(p, q.value, steps)) <==>
        p.refs != [] && (forall r :: r in p.refs ==> Survives(r, steps, catalog)) && Sequential(p, steps) && NothingDeclared(p)
  {
    var q := Saved(Opened(p, steps).value, catalog);
    var ts := TokensOf(ShownAll(p.refs, steps));
    if q.Some? && SamePipeline(p, q.value, steps) {
      SameStepsAreWritable(p, steps, catalog);
      ShownTokened(p, steps);
      ShownOneByOne(p.refs, steps);
      WritableSaved(ts, catalog);
      WritableExactly(p, steps, catalog);
    } else if p.refs != [] && forall r :: r in p.refs ==> Survives(r, steps, catalog) {
      SurvivorsAreWritable(p, steps, catalog);
      WritableExactly(p, steps, catalog);
    }
  }

  lemma SurvivorsAreWritable(p: Pipeline, steps: Definitions, catalog: map<string, string>)
    requires forall r :: r in p.refs ==> Survives(r, steps, catalog)
    ensures Writable(TokensOf(ShownAll(p.refs, steps))) && Known(TokensOf(ShownAll(p.refs, steps)), catalog)
  {
    var ts := TokensOf(ShownAll(p.refs, steps));
    ShownOneByOne(p.refs, steps);
    forall t | t in ts ensures Printable([t]) && t.name in catalog {
      var i :| 0 <= i < |ts| && ts[i] == t;
      assert p.refs[i] in p.refs;
    }
  }

  /** Which stored pipelines the form opens: those without gates, inline steps and matrices, in which every step has
      no configuration or names a repository. */
  lemma OpenedExactly(p: Pipeline, steps: Definitions)
    requires "" !in steps
    ensures Opened(p, steps).Some? <==> forall i :: 0 <= i < |p.refs| ==> Openable(p.refs[i], steps)
  {
    ShownMembers(p.refs, steps);
  }

  predicate Openable(r: Ref, steps: Definitions) {
    && r.approval == None && (r.stepId != "" || r.action == "")
    && (r.stepId in steps ==>
          && r.matrix == None
          && (steps[r.stepId].with + r.with == map[] || GitRepoFromStepWith(steps[r.stepId].with + r.with) != ""))
  }

  lemma ShownOpenable(r: Ref, steps: Definitions)
    requires "" !in steps
    ensures (Shown(r, steps).Some? ==> StepDslExpressible(Shown(r, steps).value)) <==> Openable(r, steps)
  {
  }

  lemma {:induction false} ShownMembers(refs: seq<Ref>, steps: Definitions)
    requires "" !in steps
    ensures Expressible(refs, steps) <==> forall i :: 0 <= i < |refs| ==> Openable(refs[i], steps)
  {
    if refs != [] {
      ShownMembers(refs[1..], steps);
      var first := match Shown(refs[0], steps) case Some(s) => [s] case None => [];
      assert ShownAll(refs, steps) == first + ShownAll(refs[1..], steps);
      if Shown(refs[0], steps).Some? { assert first == [Shown(refs[0], steps).value] && first[0] in first; }
      ShownOpenable(refs[0], steps);
      assert Expressible(refs, steps) <==> (forall s :: s in first ==> StepDslExpressible(s)) && Expressible(refs[1..], steps);
    }
  }
}
