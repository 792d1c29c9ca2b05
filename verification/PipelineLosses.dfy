/** Concrete pipelines that do not survive being printed and compiled again, or opened in the edit form and
    saved. */
module PipelineLosses {
  import opened Options
  import opened Text
  import opened JsonValues
  import opened PipelineDsl
  import opened PipelineParser
  import opened PipelineCompiler
  import opened PipelinePrinter
  import opened Ranks
  import opened StageOrder
  import opened PipelineEditing
  import StepConversion

  lemma ResolveOne(t: StepToken, mapId: string, catalog: map<string, string>)
    requires t.name in catalog
    ensures Resolve([Placed(t, mapId)], catalog) == Ok([StepRef(catalog[t.name], t.name, GitRepoStepWith(t.repo), mapId)])
  {
    assert [Placed(t, mapId)][1..] == [] && Resolve([], catalog) == Ok([]);
    var ref := StepRef(catalog[t.name], t.name, GitRepoStepWith(t.repo), mapId);
    assert [ref] + [] == [ref];
  }

  lemma ResolveTwo(t: StepToken, u: StepToken, catalog: map<string, string>)
    requires t.name in catalog && u.name in catalog
    ensures Resolve([Placed(t, ""), Placed(u, "")], catalog) ==
      Ok([StepRef(catalog[t.name], t.name, GitRepoStepWith(t.repo), ""), StepRef(catalog[u.name], u.name, GitRepoStepWith(u.repo), "")])
  {
    ResolveOne(u, "", catalog);
    assert [Placed(t, ""), Placed(u, "")][1..] == [Placed(u, "")];
    var first, second := StepRef(catalog[t.name], t.name, GitRepoStepWith(t.repo), ""), StepRef(catalog[u.name], u.name, GitRepoStepWith(u.repo), "");
    assert [first] + [second] == [first, second];
  }

  // ---- A lone group. ----

  const A := StepToken("a", "")
  const B := StepToken("b", "")

  lemma LettersArePrintable()
    ensures Printable([A, B]) && Printable([A]) && Printable([B])
    ensures StageText([A, B]) == "[a,b]" && StageText([A]) == "a" && StageText([B]) == "b"
  {
    assert Walk("a", 0) == Some(0) && Walk("b", 0) == Some(0);
    assert TokenTexts([A, B]) == ["a", "b"] && Join(["a", "b"][1..], ",") == "b";
    assert "[" + ("a" + "," + "b") + "]" == "[a,b]";
  }

  lemma ReadsAs(st: Stage)
    requires Printable(st)
    ensures ParseDsl(StageText(st)) == Ok([Node([st], "")])
  {
    RereadPipeline([st]);
    assert Join(StageTexts([st]), ARROW) == StageText(st);
    assert SingleStageNodes([st]) == [Node([st], "")];
  }

  lemma LoneGroupReads()
    ensures ParseDsl("[a,b]") == Ok([Node([[A, B]], "")])
  {
    LettersArePrintable();
    ReadsAs([A, B]);
  }

  lemma ChainReads()
    ensures ParseDsl("a->b") == Ok([Node([[A]], ""), Node([[B]], "")])
  {
    LettersArePrintable();
    RereadPipeline([[A], [B]]);
    assert StageTexts([[A], [B]]) == ["a", "b"] && Join(["a", "b"][1..], ARROW) == "b";
    assert "a" + ARROW + "b" == "a->b";
    assert SingleStageNodes([[A], [B]]) == [Node([[A]], ""), Node([[B]], "")];
  }

  lemma LoneGroupStages()
    ensures var nodes := [Node([[A, B]], "")];
      && Place(nodes) == [Placed(A, ""), Placed(B, "")] && Stageful(nodes) && RoutesOf(nodes) == []
      && StepNames(Place(nodes)) == ["a", "b"] && Distinct(["a", "b"])
  {
    var nodes := [Node([[A, B]], "")];
    assert PlaceStages([[A, B]], "") == PlaceStage([A, B], "") + PlaceStages([[A, B]][1..], "");
    assert Place(nodes) == PlaceStages([[A, B]], "") + Place(nodes[1..]);
    assert NameGroups([[A, B]]) == [StageNames([A, B])] && StageNames([A, B]) == ["a", "b"];
    assert StageRoutes(NameGroups([[A, B]])) == [];
    assert WithinRoutes(nodes) == StageRoutes(NameGroups([[A, B]])) + WithinRoutes(nodes[1..]);
    assert BetweenRoutes(nodes) == [];
    assert StepNames(Place(nodes)) == ["a", "b"];
  }

  lemma ChainHasRoute()
    ensures var again := [Node([[A]], ""), Node([[B]], "")];
      Stageful(again) && Route("a", "b") in RoutesOf(again)
  {
    var again := [Node([[A]], ""), Node([[B]], "")];
    assert Flatten(again[1..]) == [[B]] + Flatten(again[1..][1..]);
    assert Flatten(again) == [[A]] + Flatten(again[1..]) == [[A], [B]];
    var groups := NameGroups(Flatten(again));
    assert groups[0] == ["a"] && groups[1] == ["b"];
    assert CrossRoute(groups, Route("a", "b"));
    RoutesCrossStages(again, Route("a", "b"));
  }

  /** "[a,b]" has no routes; ranked as a sequence it prints as "a->b", which has one. */
  lemma LoneGroupComesApart(catalog: map<string, string>)
    requires "a" in catalog && "b" in catalog
    ensures ParseDsl("[a,b]").Ok? && ParseDsl("a->b").Ok?
    ensures var nodes, again := ParseDsl("[a,b]").value, ParseDsl("a->b").value;
      var refs := [StepRef(catalog["a"], "a", map[], ""), StepRef(catalog["b"], "b", map[], "")];
      && Resolve(Place(nodes), catalog) == Ok(refs) && Stageful(nodes) && Stageful(again)
      && StageRanks(StepNames(Place(nodes)), RoutesOf(nodes), Some([0, 1]))
      && Printed(Annotate(refs, [0, 1])) == "a->b"
      && RoutesOf(nodes) == [] && Route("a", "b") in RoutesOf(again)
  {
    LoneGroupReads();
    ChainReads();
    LoneGroupStages();
    LoneGroupRanks();
    ChainHasRoute();
    ResolveTwo(A, B, catalog);
    var refs := [StepRef(catalog["a"], "a", map[], ""), StepRef(catalog["b"], "b", map[], "")];
    PrintedApart(catalog, [Node([[A, B]], "")], refs);
  }

  lemma LoneGroupRanks()
    ensures StageRanks(["a", "b"], [], Some([0, 1]))
  {
  }

  lemma PrintedApart(catalog: map<string, string>, nodes: seq<Node>, refs: seq<StepRef>)
    requires nodes == [Node([[A, B]], "")] && Place(nodes) == [Placed(A, ""), Placed(B, "")]
    requires |refs| == 2 && Resolve(Place(nodes), catalog) == Ok(refs)
    ensures Printed(Annotate(refs, [0, 1])) == "a->b"
  {
    LettersArePrintable();
    SpreadStages([A, B], [0, 1]);
    assert Spread([A, B]) == [[A], [B]];
    assert Flatten(nodes) == [[A, B]] + Flatten(nodes[1..]) == [[A, B]];
    OneStage([[A, B]]);
    PrintedStages(nodes, catalog, [[A], [B]], [0, 1]);
    assert StageTexts([[A], [B]]) == ["a", "b"] && Join(["a", "b"][1..], ARROW) == "b";
    assert "a" + ARROW + "b" == "a->b";
  }

  // ---- A map region. ----

  lemma RegionIsClean()
    ensures Clean("[a]*m")
  {
    assert "[a]*m"[1..] == "a]*m" && "a]*m"[1..] == "]*m" && "]*m"[1..] == "*m" && "*m"[1..] == "m" && "m"[1..] == "";
    assert Walk("", 0) == Some(0) && Walk("m", 0) == Some(0) && Walk("*m", 0) == Some(0);
    assert Walk("]*m", 1) == Some(0) && Walk("a]*m", 1) == Some(0);
  }

  lemma ParseA()
    ensures ParseStage("a") == Ok([A])
  {
    CutAbsent("a", ',');
    CutAbsent("a", '@');
    TrimSpaceIdentity("a");
    assert SplitOn("a", ',') == ["a"] && ["a"][1..] == [] && ParseTokens([]) == Ok([]);
    assert SplitStepRepo("a") == A && [A] + [] == [A];
  }

  lemma RegionParts()
    ensures var seg := "[a]*m";
      TrimSpace(seg) == seg && LastIndex(seg, ']') == 2 && seg[1..2] == "a" && TrimSpace(seg[3..]) == "*m"
  {
    var seg := "[a]*m";
    TrimSpaceIdentity(seg);
    assert LastIndex(seg, ']') == 2 by {
      var i := LastIndex(seg, ']');
      assert seg[2] == ']' && seg[3] != ']' && seg[4] != ']' && seg[0] != ']' && seg[1] != ']';
    }
    assert seg[3..] == "*m";
    TrimSpaceIdentity("*m");
  }

  lemma RegionBody()
    ensures SplitArrows("a", []) == ["a"] && ParseStages(["a"]) == Ok([[A]])
  {
    assert "a"[1..] == "" && SplitArrows("", "a") == ["a"] && [] + ['a'] == "a";
    ParseA();
    assert ["a"][1..] == [] && ParseStages([]) == Ok([]) && [[A]] + [] == [[A]];
  }

  lemma RegionSuffix(suffix: string)
    requires suffix == "*m"
    ensures ParseSuffix(suffix) == Ok("m")
  {
    assert suffix[1..] == "m";
  }

  lemma BracketReads(seg: string, inner: string, suffix: string, id: string, stages: seq<Stage>)
    requires 1 <= LastIndex(seg, ']') < |seg| && seg[1..LastIndex(seg, ']')] == inner && '[' !in inner
    requires TrimSpace(seg[LastIndex(seg, ']') + 1..]) == suffix && ParseSuffix(suffix) == Ok(id) && id != ""
    requires ParseStages(SplitArrows(inner, [])) == Ok(stages)
    ensures ParseBracket(seg) == Ok(Node(stages, id))
  {
  }

  lemma SegmentReads(seg: string)
    requires seg == "[a]*m"
    ensures ParseSegment(seg) == Ok(Node([[A]], "m"))
  {
    RegionParts();
    RegionBody();
    RegionSuffix("*m");
    BracketReads(seg, "a", "*m", "m", [[A]]);
  }

  /** "[a]*m" prints as "a", which runs once instead of once per value. */
  lemma MapRegionIsLost(catalog: map<string, string>)
    requires "a" in catalog
    ensures ParseDsl("[a]*m") == Ok([Node([[A]], "m")]) && ParseDsl("a") == Ok([Node([[A]], "")])
    ensures var nodes, again := [Node([[A]], "m")], [Node([[A]], "")];
      var refs := [StepRef(catalog["a"], "a", map[], "m")];
      && Resolve(Place(nodes), catalog) == Ok(refs) && Printed(Annotate(refs, [0])) == "a"
      && Resolve(Place(again), catalog) == Ok([StepRef(catalog["a"], "a", map[], "")])
  {
    LettersArePrintable();
    ReadsAs([A]);
    RegionReads();
    OneNodePlaced("m");
    OneNodePlaced("");
    ResolveOne(A, "m", catalog);
    ResolveOne(A, "", catalog);
    RegionPrints(catalog);
  }

  lemma RegionReads()
    ensures ParseDsl("[a]*m") == Ok([Node([[A]], "m")])
  {
    RegionIsClean();
    SplitOfJoin(["[a]*m"]);
    assert Join(["[a]*m"], ARROW) == "[a]*m";
    SegmentReads("[a]*m");
    assert ["[a]*m"][1..] == [] && ParseSegments([]) == Ok([]);
    assert [Node([[A]], "m")] + [] == [Node([[A]], "m")];
  }

  lemma RegionPrints(catalog: map<string, string>)
    requires "a" in catalog
    ensures Printed(Annotate([StepRef(catalog["a"], "a", map[], "m")], [0])) == "a"
  {
    var nodes := [Node([[A]], "m")];
    OneNodePlaced("m");
    ResolveOne(A, "m", catalog);
    LettersArePrintable();
    assert Flatten(nodes) == [[A]] + Flatten(nodes[1..]) == [[A]];
    assert NameGroups([[A]])[0] == ["a"] && Flat(NameGroups([[A]])) == ["a"] + Flat(NameGroups([[A]])[1..]);
    assert Stages(NameGroups([[A]])) == [0];
    PrintedStages(nodes, catalog, [[A]], [0]);
    assert StageTexts([[A]]) == ["a"];
  }

  lemma OneNodePlaced(mapId: string)
    ensures Place([Node([[A]], mapId)]) == [Placed(A, mapId)]
  {
    var nodes := [Node([[A]], mapId)];
    assert PlaceStages([[A]], mapId) == PlaceStage([A], mapId) + PlaceStages([[A]][1..], mapId);
    assert Place(nodes) == PlaceStages([[A]], mapId) + Place(nodes[1..]);
  }

  // ---- Parallel steps in the edit form. ----

  const C := StepToken("c", "")

  lemma ForkPrintable()
    ensures Printable([A]) && Printable([B, C]) && StageText([A]) == "a" && StageText([B, C]) == "[b,c]"
  {
    assert Walk("a", 0) == Some(0) && Walk("b", 0) == Some(0) && Walk("c", 0) == Some(0);
    assert TokenTexts([B, C]) == ["b", "c"] && Join(["b", "c"][1..], ",") == "c";
    assert "[" + ("b" + "," + "c") + "]" == "[b,c]";
  }

  function Fork(): seq<Node> { [Node([[A]], ""), Node([[B, C]], "")] }

  lemma ForkReads()
    ensures ParseDsl("a->[b,c]") == Ok(Fork())
  {
    ForkPrintable();
    RereadPipeline([[A], [B, C]]);
    assert StageTexts([[A], [B, C]]) == ["a", "[b,c]"] && Join(["a", "[b,c]"][1..], ARROW) == "[b,c]";
    assert "a" + ARROW + "[b,c]" == "a->[b,c]";
    assert SingleStageNodes([[A], [B, C]]) == Fork();
  }

  lemma ForkPlaced()
    ensures Flatten(Fork()) == [[A], [B, C]] && StepNames(Place(Fork())) == ["a", "b", "c"] && Distinct(["a", "b", "c"])
  {
    assert Fork() == SingleStageNodes([[A], [B, C]]);
    FlattenSingles([[A], [B, C]]);
    PlacedNames(Fork());
    var groups := NameGroups([[A], [B, C]]);
    assert StageNames([A]) == ["a"] && StageNames([B, C]) == ["b", "c"];
    assert groups == [["a"], ["b", "c"]] && groups[1..] == [["b", "c"]] && groups[1..][1..] == [];
    assert Flat(groups[1..]) == ["b", "c"] + Flat([]) == ["b", "c"];
    assert Flat(groups) == ["a"] + Flat(groups[1..]) == ["a", "b", "c"];
  }

  /** "a->[b,c]", opened in the form and saved, is another pipeline: its text has no brackets. */
  lemma ForkComesApart(catalog: map<string, string>)
    requires "a" in catalog && "b" in catalog && "c" in catalog
    ensures ParseDsl("a->[b,c]") == Ok(Fork()) && Resolve(Place(Fork()), catalog).Ok? && Stageful(Fork())
    ensures var refs := Resolve(Place(Fork()), catalog).value;
      var again := ParseDsl(Printed(Unranked(refs)));
      && again.Ok? && Stageful(again.value) && Resolve(Place(again.value), catalog) == Ok(refs)
      && !SameRoutes(RoutesOf(Fork()), RoutesOf(again.value))
  {
    ForkReads();
    ForkPlaced();
    ForkResolves(catalog);
    ParsedIsStageful("a->[b,c]");
    OpenAndSave("a->[b,c]", catalog);
    assert [B, C] in Flatten(Fork()) && |[B, C]| == 2 && !OneByOne(Fork());
    ForkRefsKept(catalog);
  }

  lemma ForkResolves(catalog: map<string, string>)
    requires "a" in catalog && "b" in catalog && "c" in catalog
    ensures Resolve(Place(Fork()), catalog).Ok? && NoMapRegion(Fork())
  {
    var placed := Place(Fork());
    assert Fork() == SingleStageNodes([[A], [B, C]]);
    PlaceSingles([[A], [B, C]]);
    ForkPlaced();
    forall i | 0 <= i < |placed| ensures placed[i].token.name in catalog {
      assert StepNames(placed)[i] == placed[i].token.name && StepNames(placed)[i] in ["a", "b", "c"];
    }
    ResolveSucceeds(placed, catalog);
  }

  /** The references themselves are the same. */
  lemma ForkRefsKept(catalog: map<string, string>)
    requires ParseDsl("a->[b,c]") == Ok(Fork()) && Resolve(Place(Fork()), catalog).Ok? && NoMapRegion(Fork())
    requires Distinct(StepNames(Place(Fork())))
    ensures var refs := Resolve(Place(Fork()), catalog).value;
      var again := ParseDsl(Printed(Unranked(refs)));
      again.Ok? && Resolve(Place(again.value), catalog) == Ok(refs)
  {
    var refs, ts := Resolve(Place(Fork()), catalog).value, Tokens(Flatten(Fork()));
    CompiledTokens("a->[b,c]", catalog);
    PrintedUnranked(Unranked(refs), ts);
    UnrankedReads(ts);
    SpreadPrintable(ts);
    SpreadTokens(ts);
    Recompiled(Fork(), catalog, Spread(ts));
    RefsKeepUnlessMapped(Fork(), catalog, Resolve(Place(SingleStageNodes(Spread(ts))), catalog).value);
  }

  // ---- Stored steps in the edit form. ----

  function Lone(r: Ref): Pipeline { Pipeline([r], [], [], [], [], []) }

  /** A pipeline of one writable step is saved as that step's token. */
  lemma LoneSaved(r: Ref, steps: Definitions, catalog: map<string, string>)
    requires Shown(r, steps).Some? && StepDslExpressible(Shown(r, steps).value)
    requires var t := TokenOf(Shown(r, steps).value); Printable([t]) && t.name in catalog
    ensures Opened(Lone(r), steps).Some?
    ensures var t, q := TokenOf(Shown(r, steps).value), Saved(Opened(Lone(r), steps).value, catalog);
      q.Some? && q.value.refs == [SavedRef(StepRef(catalog[t.name], t.name, GitRepoStepWith(t.repo), ""))]
  {
    var shown := ShownAll([r], steps);
    assert [r][1..] == [] && ShownAll([], steps) == [] && shown == [Shown(r, steps).value];
    ShownTokened(Lone(r), steps);
    WritableSaved(TokensOf(shown), catalog);
  }

  function StoredStep(name: string, with: Object): Ref {
    StepConversion.Ref("s", "", 0, name, with, None, None, "", "", None, false, [])
  }

  function Definition(name: string): StepConversion.StepDef { StepConversion.StepDef(name, "forge/run", map[], 30) }

  /** A step that may pass unresolved references on is accepted, and may not do so once it is saved. */
  lemma AllowUnresolvedIsLost()
    ensures var r := StoredStep("a", map[]).(allowUnresolved := true);
      var steps, catalog := map["s" := Definition("a")], map["a" := "s"];
      && Opened(Lone(r), steps).Some?
      && Saved(Opened(Lone(r), steps).value, catalog).Some?
      && Saved(Opened(Lone(r), steps).value, catalog).value.refs == [r.(allowUnresolved := false)]
  {
    LettersArePrintable();
    var none: Object := map[];
    assert none + none == none && GitRepoFromStepWith(none) == "";
    LoneSaved(StoredStep("a", map[]).(allowUnresolved := true), map["s" := Definition("a")], map["a" := "s"]);
  }

  /** An occurrence "b" of the step "a" is saved as the step whose own name is "b". */
  lemma OccurrenceBecomesAnother()
    ensures var r := StoredStep("b", map[]);
      var steps, catalog := map["s" := Definition("a"), "t" := Definition("b")], map["a" := "s", "b" := "t"];
      && Opened(Lone(r), steps).Some?
      && Saved(Opened(Lone(r), steps).value, catalog).Some?
      && Saved(Opened(Lone(r), steps).value, catalog).value.refs == [r.(stepId := "t")]
  {
    LettersArePrintable();
    var none: Object := map[];
    assert none + none == none && GitRepoFromStepWith(none) == "";
    LoneSaved(StoredStep("b", map[]), map["s" := Definition("a"), "t" := Definition("b")], map["a" := "s", "b" := "t"]);
  }

  const REPO_U: Object := GitRepoStepWith("u")

  /** A step given a repository and an environment is accepted, and saved without the environment. */
  lemma EnvironmentIsLost()
    ensures var r := StoredStep("a", REPO_U["env" := JObj(map["A" := JStr("1")])]);
      var steps, catalog := map["s" := Definition("a")], map["a" := "s"];
      && Opened(Lone(r), steps).Some?
      && Saved(Opened(Lone(r), steps).value, catalog).Some?
      && Saved(Opened(Lone(r), steps).value, catalog).value.refs == [r.(with := REPO_U)]
  {
    var with := REPO_U["env" := JObj(map["A" := JStr("1")])];
    RepoUShown(with);
    LoneSaved(StoredStep("a", with), map["s" := Definition("a")], map["a" := "s"]);
  }

  lemma RepoUShown(with: Object)
    requires with == REPO_U["env" := JObj(map["A" := JStr("1")])]
    ensures map[] + with == with && GitRepoFromStepWith(with) == "u" && Printable([StepToken("a", "u")]) && GitRepoStepWith("u") == REPO_U
  {
    assert "env" != "secret_refs" by { assert |"env"| != |"secret_refs"|; }
    RepoRoundTrip("u");
    assert with["secret_refs"] == GitRepoStepWith("u")["secret_refs"];
    TokenUPrintable("a@u");
  }

  lemma TokenUPrintable(text: string)
    requires text == "a@u"
    ensures Printable([StepToken("a", "u")])
  {
    assert TokenText(StepToken("a", "u")) == text && text[1..] == "@u" && text[1..][1..] == "u" && text[1..][1..][1..] == "";
    assert Walk(text[1..][1..], 0) == Some(0) && Walk(text[1..], 0) == Some(0) && Clean(text);
  }
}
