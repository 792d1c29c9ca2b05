/** From annotated steps back to pipeline text, and what recompiling that text gives. */
module PipelinePrinter {
  import opened Options
  import opened Text
  import opened JsonValues
  import opened PipelineDsl
  import opened PipelineParser
  import opened PipelineCompiler
  import opened Ranks
  import opened StageOrder

  /** A step as the command line decodes the server's answer: `with` is its definition's configuration merged
      with the override of this occurrence. */
  datatype Step = Step(stepId: string, name: string, action: string, with: Object,
                       hasMatrix: bool, hasApproval: bool, stage: Option<nat>)

  /** Whether the one-line language can express the step. */
  predicate StepDslExpressible(s: Step) {
    && !s.hasApproval && !s.hasMatrix
    && !(s.stepId == "" && s.action != "")
    && (s.with == map[] || GitRepoFromStepWith(s.with) != "")
  }

  /** A configuration the check accepts is what the language can write exactly when it holds nothing beside
      the secret references. */
  lemma ExpressibleWithExactly(s: Step)
    requires StepDslExpressible(s)
    ensures s.with == GitRepoStepWith(GitRepoFromStepWith(s.with)) <==> s.with.Keys <= {"secret_refs"}
  {
    var repo := GitRepoFromStepWith(s.with);
    if repo == "" {
      assert s.with == map[];
    } else {
      var refs := s.with["secret_refs"].fields;
      assert refs == map[GIT_CLONE_ENV := JStr("git:" + repo)] by {
        assert |refs.Keys| == |refs| == 1 && GIT_CLONE_ENV in refs.Keys;
        OnlyMember(refs.Keys, GIT_CLONE_ENV);
        assert refs[GIT_CLONE_ENV].s == "git:" + repo;
      }
      if s.with.Keys <= {"secret_refs"} { assert s.with == GitRepoStepWith(repo); }
    }
  }

  lemma OnlyMember<T>(s: set<T>, x: T)
    requires |s| == 1 && x in s
    ensures s == {x}
  {
    assert |s - {x}| == 0;
  }

  function DslStepToken(s: Step): string {
    var repo := GitRepoFromStepWith(s.with);
    if repo != "" then s.name + "@" + repo else s.name
  }

  /** What printing sees of a step. */
  datatype Mark = Mark(text: string, stage: Option<nat>)

  function Marks(steps: seq<Step>): seq<Mark> {
    seq(|steps|, i requires 0 <= i < |steps| => Mark(DslStepToken(steps[i]), steps[i].stage))
  }

  function RunLength(marks: seq<Mark>, stage: nat): (n: nat)
    ensures n <= |marks|
  {
    if marks != [] && marks[0].stage == Some(stage) then 1 + RunLength(marks[1..], stage) else 0
  }

  function Texts(marks: seq<Mark>): (texts: seq<string>)
    ensures |texts| == |marks|
  {
    seq(|marks|, i requires 0 <= i < |marks| => marks[i].text)
  }

  function GroupText(texts: seq<string>): string {
    if |texts| == 1 then texts[0] else "[" + Join(texts, ",") + "]"
  }

  /** One segment per run of equal stages; a step without a stage stands alone. */
  function Segments(marks: seq<Mark>): seq<string>
    decreases |marks|
  {
    if marks == [] then []
    else match marks[0].stage
      case None => [marks[0].text] + Segments(marks[1..])
      case Some(g) =>
        var n := 1 + RunLength(marks[1..], g);
        [GroupText(Texts(marks[..n]))] + Segments(marks[n..])
  }

  function Printed(steps: seq<Step>): string { Join(Segments(Marks(steps)), ARROW) }

  lemma RunLengthStep(marks: seq<Mark>, i: nat, g: nat)
    requires i <= |marks|
    ensures RunLength(marks[i..], g) ==
      if i < |marks| && marks[i].stage == Some(g) then 1 + RunLength(marks[i + 1..], g) else 0
  {
    if i < |marks| { assert marks[i..][1..] == marks[i + 1..]; }
  }

  lemma SegmentsStep(marks: seq<Mark>, i: nat)
    requires i < |marks|
    ensures marks[i].stage.None? ==> Segments(marks[i..]) == [marks[i].text] + Segments(marks[i + 1..])
    ensures marks[i].stage.Some? ==>
      var j := i + RunLength(marks[i..], marks[i].stage.value);
      i < j <= |marks| && Segments(marks[i..]) == [GroupText(Texts(marks[i..j]))] + Segments(marks[j..])
  {
    var rest := marks[i..];
    assert rest[1..] == marks[i + 1..];
    if marks[i].stage.Some? {
      var n := RunLength(rest, marks[i].stage.value);
      assert rest[..n] == marks[i..i + n] && rest[n..] == marks[i + n..];
    }
  }

  lemma AppendFirst(a: seq<string>, x: string, rest: seq<string>)
    ensures a + ([x] + rest) == (a + [x]) + rest
  {
  }

  /** The tokens of the steps from `start` on that share stage g, and where they end. */
  method TakeRun(marks: seq<Mark>, start: nat, g: nat) returns (names: seq<string>, i: nat)
    requires start <= |marks|
    ensures i == start + RunLength(marks[start..], g) <= |marks|
    ensures names == Texts(marks[start..i])
  {
    names, i := [], start;
    while i < |marks| && marks[i].stage == Some(g)
      invariant start <= i <= |marks|
      invariant i - start + RunLength(marks[i..], g) == RunLength(marks[start..], g)
      invariant |names| == i - start && forall k :: 0 <= k < |names| ==> names[k] == marks[start + k].text
      decreases |marks| - i
    {
      RunLengthStep(marks, i, g);
      names := names + [marks[i].text];
      i := i + 1;
    }
    RunLengthStep(marks, i, g);
    assert names == Texts(marks[start..i]);
  }

  /** The segment that starts at step i, and where the next one starts. */
  method NextSegment(marks: seq<Mark>, i: nat) returns (text: string, next: nat)
    requires i < |marks|
    ensures i < next <= |marks| && Segments(marks[i..]) == [text] + Segments(marks[next..])
  {
    SegmentsStep(marks, i);
    if marks[i].stage.None? {
      return marks[i].text, i + 1;
    }
    var names;
    names, next := TakeRun(marks, i, marks[i].stage.value);
    if |names| == 1 {
      text := names[0];
    } else {
      text := "[" + Join(names, ",") + "]";
    }
    assert text == GroupText(names);
  }

  method StepsToDsl(steps: seq<Step>) returns (dsl: string)
    ensures dsl == Printed(steps)
  {
    var marks := Marks(steps);
    var segs: seq<string> := [];
    var i := 0;
    assert marks[0..] == marks && segs + Segments(marks) == Segments(marks);
    while i < |marks|
      invariant 0 <= i <= |marks| && segs + Segments(marks[i..]) == Segments(marks)
    {
      var text, next := NextSegment(marks, i);
      AppendFirst(segs, text, Segments(marks[next..]));
      segs, i := segs + [text], next;
    }
    assert marks[i..] == [] && segs + [] == segs;
    return Join(segs, ARROW);
  }

  // ---- Compiled steps carry what printing needs. ----

  /** The references of compiled steps, with their ranks, as steps whose definitions hold no configuration. */
  function Annotate(refs: seq<StepRef>, ranks: seq<nat>): seq<Step>
    requires |ranks| == |refs|
  {
    seq(|refs|, i requires 0 <= i < |refs| =>
      Step(refs[i].stepId, refs[i].name, "", refs[i].with, false, false, Some(ranks[i])))
  }

  lemma {:induction false} ResolvedRefs(steps: seq<Placed>, catalog: map<string, string>)
    requires Resolve(steps, catalog).Ok?
    ensures |Resolve(steps, catalog).value| == |steps|
    ensures forall i :: 0 <= i < |steps| ==>
      var t := steps[i].token;
      t.name in catalog && Resolve(steps, catalog).value[i] == StepRef(catalog[t.name], t.name, GitRepoStepWith(t.repo), steps[i].mapId)
  {
    if steps != [] { ResolvedRefs(steps[1..], catalog); }
  }

  lemma {:induction false} ResolveSucceeds(steps: seq<Placed>, catalog: map<string, string>)
    requires forall i :: 0 <= i < |steps| ==> steps[i].token.name in catalog
    ensures Resolve(steps, catalog).Ok?
  {
    if steps != [] { ResolveSucceeds(steps[1..], catalog); }
  }

  /** Every compiled step is one the edit form accepts, and prints as its own token. */
  lemma CompiledIsExpressible(steps: seq<Placed>, catalog: map<string, string>, ranks: seq<nat>, i: nat)
    requires Resolve(steps, catalog).Ok? && |ranks| == |steps| && i < |steps|
    requires |Resolve(steps, catalog).value| == |steps|
    ensures var s := Annotate(Resolve(steps, catalog).value, ranks)[i];
      StepDslExpressible(s) && DslStepToken(s) == TokenText(steps[i].token)
  {
    ResolvedRefs(steps, catalog);
    RepoRoundTrip(steps[i].token.repo);
  }

  // ---- Printing staged steps gives one segment per stage. ----

  function StageMarks(stages: seq<Stage>, k: nat): seq<Mark> {
    if stages == [] then []
    else seq(|stages[0]|, i requires 0 <= i < |stages[0]| => Mark(TokenText(stages[0][i]), Some(k))) + StageMarks(stages[1..], k + 1)
  }

  lemma {:induction false} RunOfStage(run: seq<Mark>, rest: seq<Mark>, k: nat)
    requires forall i :: 0 <= i < |run| ==> run[i].stage == Some(k)
    requires rest != [] ==> rest[0].stage != Some(k)
    ensures RunLength(run + rest, k) == |run|
  {
    if run == [] {
      assert run + rest == rest;
    } else {
      assert (run + rest)[1..] == run[1..] + rest;
      RunOfStage(run[1..], rest, k);
    }
  }

  /** The first stage's marks print as one segment. */
  lemma FirstSegment(stages: seq<Stage>, k: nat)
    requires stages != [] && stages[0] != [] && (|stages| > 1 ==> stages[1] != [])
    ensures Segments(StageMarks(stages, k)) == [StageText(stages[0])] + Segments(StageMarks(stages[1..], k + 1))
  {
    var st := stages[0];
    var marks, rest := StageMarks(stages, k), StageMarks(stages[1..], k + 1);
    var run := marks[..|st|];
    assert marks == run + rest && Texts(run) == TokenTexts(st);
    RunOfStage(run[1..], rest, k);
    assert marks[1..] == run[1..] + rest;
    assert marks[0].stage == Some(k) && marks[|st|..] == rest;
  }

  lemma {:induction false} SegmentsOfStages(stages: seq<Stage>, k: nat)
    requires forall st :: st in stages ==> st != []
    ensures Segments(StageMarks(stages, k)) == StageTexts(stages)
  {
    if stages == [] {
      assert StageTexts(stages) == [];
    } else {
      assert stages[0] in stages;
      forall x | x in stages[1..] ensures x != [] { assert x in stages; }
      if |stages| > 1 { assert stages[1] in stages; }
      FirstSegment(stages, k);
      SegmentsOfStages(stages[1..], k + 1);
      assert StageTexts(stages) == [StageText(stages[0])] + StageTexts(stages[1..]);
    }
  }

  function Tokens(stages: seq<Stage>): Stage {
    if stages == [] then [] else stages[0] + Tokens(stages[1..])
  }

  lemma {:induction false} StageMarkAt(stages: seq<Stage>, k: nat, i: nat)
    requires i < |Tokens(stages)|
    ensures |StageMarks(stages, k)| == |Tokens(stages)| == |Flat(NameGroups(stages))|
    ensures StageMarks(stages, k)[i] == Mark(TokenText(Tokens(stages)[i]), Some(k + StageAt(NameGroups(stages), i)))
  {
    TokenCounts(stages, k);
    assert NameGroups(stages)[1..] == NameGroups(stages[1..]);
    if i >= |stages[0]| { StageMarkAt(stages[1..], k + 1, i - |stages[0]|); }
  }

  lemma {:induction false} TokenCounts(stages: seq<Stage>, k: nat)
    ensures |StageMarks(stages, k)| == |Tokens(stages)| == |Flat(NameGroups(stages))|
  {
    if stages != [] {
      assert NameGroups(stages)[1..] == NameGroups(stages[1..]);
      TokenCounts(stages[1..], k + 1);
    }
  }

  lemma {:induction false} PlacedTokensOfNode(stages: seq<Stage>, mapId: string)
    ensures |PlaceStages(stages, mapId)| == |Tokens(stages)|
    ensures forall i :: 0 <= i < |Tokens(stages)| ==> PlaceStages(stages, mapId)[i] == Placed(Tokens(stages)[i], mapId)
  {
    if stages != [] { PlacedTokensOfNode(stages[1..], mapId); }
  }

  lemma {:induction false} TokensConcat(a: seq<Stage>, b: seq<Stage>)
    ensures Tokens(a + b) == Tokens(a) + Tokens(b)
  {
    if a == [] {
      assert a + b == b;
    } else {
      assert (a + b)[1..] == a[1..] + b;
      TokensConcat(a[1..], b);
    }
  }

  lemma {:induction false} PlacedTokens(nodes: seq<Node>)
    ensures |Place(nodes)| == |Tokens(Flatten(nodes))|
    ensures forall i :: 0 <= i < |Place(nodes)| ==> Place(nodes)[i].token == Tokens(Flatten(nodes))[i]
  {
    if nodes != [] {
      PlacedTokens(nodes[1..]);
      PlacedTokensOfNode(nodes[0].stages, nodes[0].mapId);
      TokensConcat(nodes[0].stages, Flatten(nodes[1..]));
    }
  }

  /** Steps ranked by their stage print as their stages. */
  lemma PrintedStages(nodes: seq<Node>, catalog: map<string, string>, stages: seq<Stage>, ranks: seq<nat>)
    requires Resolve(Place(nodes), catalog).Ok? && |Resolve(Place(nodes), catalog).value| == |ranks|
    requires Tokens(stages) == Tokens(Flatten(nodes)) && ranks == Stages(NameGroups(stages))
    requires forall st :: st in stages ==> st != []
    ensures Printed(Annotate(Resolve(Place(nodes), catalog).value, ranks)) == Join(StageTexts(stages), ARROW)
  {
    var refs := Resolve(Place(nodes), catalog).value;
    ResolvedRefs(Place(nodes), catalog);
    PlacedTokens(nodes);
    TokenCounts(stages, 0);
    var marks := Marks(Annotate(refs, ranks));
    forall i | 0 <= i < |marks| ensures marks[i] == StageMarks(stages, 0)[i] {
      CompiledIsExpressible(Place(nodes), catalog, ranks, i);
      StageMarkAt(stages, 0, i);
    }
    assert marks == StageMarks(stages, 0);
    SegmentsOfStages(stages, 0);
  }

  // ---- The round trip. ----

  predicate SameRoutes(a: seq<Route>, b: seq<Route>) { (forall r :: r in a ==> r in b) && (forall r :: r in b ==> r in a) }

  predicate NoMapRegion(nodes: seq<Node>) { forall p :: p in Place(nodes) ==> p.mapId == "" }

  /** The pipeline is nothing but one parallel group. */
  predicate LoneGroup(nodes: seq<Node>) { |Flatten(nodes)| == 1 && |Flatten(nodes)[0]| > 1 }

  lemma {:induction false} FlattenSingles(stages: seq<Stage>)
    ensures Flatten(SingleStageNodes(stages)) == stages
  {
    if stages != [] {
      assert SingleStageNodes(stages)[1..] == SingleStageNodes(stages[1..]);
      FlattenSingles(stages[1..]);
    }
  }

  lemma {:induction false} PlaceSingles(stages: seq<Stage>)
    ensures |Place(SingleStageNodes(stages))| == |Tokens(stages)|
    ensures forall i :: 0 <= i < |Tokens(stages)| ==> Place(SingleStageNodes(stages))[i] == Placed(Tokens(stages)[i], "")
  {
    if stages != [] {
      assert SingleStageNodes(stages)[1..] == SingleStageNodes(stages[1..]);
      PlaceSingles(stages[1..]);
      assert PlaceStages([stages[0]], "") == PlaceStage(stages[0], "") + [];
    }
  }

  /** Reading printed stages back gives the same references outside map regions, and the routes that
      cross those stages. */
  lemma Recompiled(nodes: seq<Node>, catalog: map<string, string>, stages: seq<Stage>)
    requires Resolve(Place(nodes), catalog).Ok? && Tokens(stages) == Tokens(Flatten(nodes))
    requires stages != [] && forall st :: st in stages ==> Printable(st)
    ensures ParseDsl(Join(StageTexts(stages), ARROW)).Ok?
    ensures var again := ParseDsl(Join(StageTexts(stages), ARROW)).value;
      && Stageful(again) && Flatten(again) == stages
      && Resolve(Place(again), catalog).Ok?
      && |Resolve(Place(again), catalog).value| == |Resolve(Place(nodes), catalog).value|
      && (forall i :: 0 <= i < |Resolve(Place(nodes), catalog).value| ==>
            Resolve(Place(again), catalog).value[i] == Resolve(Place(nodes), catalog).value[i].(mapId := ""))
  {
    RereadPipeline(stages);
    FlattenSingles(stages);
    PlaceSingles(stages);
    PlacedTokens(nodes);
    ResolvedRefs(Place(nodes), catalog);
    var again := SingleStageNodes(stages);
    ResolveSucceeds(Place(again), catalog);
    ResolvedRefs(Place(again), catalog);
  }

  lemma RefsKeepUnlessMapped(nodes: seq<Node>, catalog: map<string, string>, refs: seq<StepRef>)
    requires Resolve(Place(nodes), catalog).Ok?
    requires |refs| == |Resolve(Place(nodes), catalog).value|
    requires forall i :: 0 <= i < |refs| ==> refs[i] == Resolve(Place(nodes), catalog).value[i].(mapId := "")
    ensures refs == Resolve(Place(nodes), catalog).value <==> NoMapRegion(nodes)
  {
    ResolvedRefs(Place(nodes), catalog);
    var before := Resolve(Place(nodes), catalog).value;
    if refs == before {
      forall i | 0 <= i < |Place(nodes)| ensures Place(nodes)[i].mapId == "" { assert before[i].mapId == ""; }
    } else {
      var i :| 0 <= i < |refs| && refs[i] != before[i];
      assert Place(nodes)[i] in Place(nodes) && Place(nodes)[i].mapId != "";
    }
  }

  /** The one stage of a lone group, step by step. */
  function Spread(st: Stage): seq<Stage> { seq(|st|, i requires 0 <= i < |st| => [st[i]]) }

  lemma {:induction false} SpreadTokens(st: Stage)
    ensures Tokens(Spread(st)) == st
    ensures |Flat(NameGroups(Spread(st)))| == |st|
    ensures forall i :: 0 <= i < |st| ==> StageAt(NameGroups(Spread(st)), i) == i
  {
    if st != [] {
      assert Spread(st)[1..] == Spread(st[1..]);
      assert NameGroups(Spread(st))[1..] == NameGroups(Spread(st[1..]));
      SpreadTokens(st[1..]);
      forall i | 0 <= i < |st| ensures StageAt(NameGroups(Spread(st)), i) == i {
        if i > 0 { assert StageAt(NameGroups(Spread(st)), i) == 1 + StageAt(NameGroups(Spread(st[1..])), i - 1); }
      }
    }
  }

  /** The stages the printer writes: the flattened ones, except that a lone group comes apart. */
  function PrintedAs(nodes: seq<Node>): seq<Stage> {
    if LoneGroup(nodes) then Spread(Flatten(nodes)[0]) else Flatten(nodes)
  }

  lemma SpreadStages(st: Stage, ranks: seq<nat>)
    requires Printable(st) && |st| > 1
    requires |ranks| == |st| && forall i :: 0 <= i < |st| ==> ranks[i] == i
    ensures ranks == Stages(NameGroups(Spread(st))) && Tokens(Spread(st)) == st
    ensures forall s :: s in Spread(st) ==> Printable(s)
  {
    SpreadTokens(st);
    forall s | s in Spread(st) ensures Printable(s) {
      var i :| 0 <= i < |st| && s == [st[i]];
      assert st[i] in st;
      RereadToken(st[i]);
    }
  }

  lemma OneStage(flat: seq<Stage>)
    requires |flat| == 1
    ensures Tokens(flat) == flat[0] && Flat(NameGroups(flat)) == StageNames(flat[0])
  {
    assert Tokens(flat) == flat[0] + Tokens(flat[1..]) && flat[1..] == [];
    assert NameGroups(flat) == [StageNames(flat[0])] && NameGroups(flat)[1..] == [];
  }

  lemma PrintedAsStages(dsl: string, ranks: Option<seq<nat>>)
    requires ParseDsl(dsl).Ok?
    requires var nodes := ParseDsl(dsl).value;
      Distinct(StepNames(Place(nodes))) && Stageful(nodes) && StageRanks(StepNames(Place(nodes)), RoutesOf(nodes), ranks)
    ensures var stages := PrintedAs(ParseDsl(dsl).value);
      && ranks == Some(Stages(NameGroups(stages))) && stages != []
      && Tokens(stages) == Tokens(Flatten(ParseDsl(dsl).value))
      && forall st :: st in stages ==> Printable(st)
  {
    var nodes := ParseDsl(dsl).value;
    var flat := Flatten(nodes);
    CompiledIsStaged(dsl);
    PlacedNames(nodes);
    assert flat[0] in flat;
    if |flat| == 1 { OneStage(flat); }
    if LoneGroup(nodes) {
      LoneStageReadsAsSequence(NameGroups(flat), RoutesOf(nodes), ranks);
      SpreadStages(flat[0], ranks.value);
    } else {
      RanksAreStages(NameGroups(flat), RoutesOf(nodes), ranks);
    }
  }

  lemma RoutesKeepUnlessLone(dsl: string, again: seq<Node>)
    requires ParseDsl(dsl).Ok? && Stageful(again)
    requires var nodes := ParseDsl(dsl).value;
      Distinct(StepNames(Place(nodes))) && Stageful(nodes) && Flatten(again) == PrintedAs(nodes)
    ensures SameRoutes(RoutesOf(ParseDsl(dsl).value), RoutesOf(again)) <==> !LoneGroup(ParseDsl(dsl).value)
  {
    var nodes := ParseDsl(dsl).value;
    CompiledIsStaged(dsl);
    forall r ensures r in RoutesOf(again) <==> CrossRoute(NameGroups(PrintedAs(nodes)), r) { RoutesCrossStages(again, r); }
    if LoneGroup(nodes) {
      var st := Flatten(nodes)[0];
      var r := Route(st[0].name, st[1].name);
      var groups := NameGroups(Spread(st));
      assert groups[0] == [st[0].name] && groups[1] == [st[1].name];
      assert CrossRoute(groups, r);
      LoneStageHasNoCrossing(NameGroups(Flatten(nodes)), r);
    }
  }

  /** Decompile, then recompile: for every accepted pipeline text with distinct known step names,
      printing the ranked steps gives text that compiles again, to the same references and the same
      set of routes exactly when no step was in a map region and the pipeline is not one lone group. */
  lemma DecompileRecompile(dsl: string, catalog: map<string, string>, ranks: Option<seq<nat>>)
    requires ParseDsl(dsl).Ok?
    requires var nodes := ParseDsl(dsl).value;
      && Distinct(StepNames(Place(nodes))) && Resolve(Place(nodes), catalog).Ok?
      && Stageful(nodes) && StageRanks(StepNames(Place(nodes)), RoutesOf(nodes), ranks)
    ensures var nodes := ParseDsl(dsl).value;
      var refs := Resolve(Place(nodes), catalog).value;
      && ranks.Some? && |ranks.value| == |refs|
      && var out := Printed(Annotate(refs, ranks.value));
         && ParseDsl(out).Ok? && Resolve(Place(ParseDsl(out).value), catalog).Ok? && Stageful(ParseDsl(out).value)
         && ((Resolve(Place(ParseDsl(out).value), catalog).value == refs && SameRoutes(RoutesOf(nodes), RoutesOf(ParseDsl(out).value)))
             <==> NoMapRegion(nodes) && !LoneGroup(nodes))
  {
    var nodes := ParseDsl(dsl).value;
    var stages := PrintedAs(nodes);
    var refs := Resolve(Place(nodes), catalog).value;
    PrintedAsStages(dsl, ranks);
    ResolvedRefs(Place(nodes), catalog);
    PlacedTokens(nodes);
    TokenCounts(stages, 0);
    PrintedStages(nodes, catalog, stages, ranks.value);
    Recompiled(nodes, catalog, stages);
    var again := ParseDsl(Join(StageTexts(stages), ARROW)).value;
    RefsKeepUnlessMapped(nodes, catalog, Resolve(Place(again), catalog).value);
    RoutesKeepUnlessLone(dsl, again);
  }
}
