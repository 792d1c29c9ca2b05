/** Pipeline text in every form the grammar has, printed and read again: single steps, groups, bracketed
    sequences and map regions. */
module PipelineRegions {
  import opened Options
  import opened Text
  import opened PipelineDsl
  import opened PipelineParser
  import opened PipelineCompiler
  import opened PipelinePrinter
  import opened StageOrder

  // ---- A bracketed body. ----

  /** Steps that can stand inside a bracket. */
  predicate Bracketable(st: Stage) {
    st != [] && forall t :: t in st ==> GoodToken(t) && Clean(TokenText(t)) && NoBrackets(TokenText(t))
  }

  function BodyTexts(stages: seq<Stage>): seq<string> {
    seq(|stages|, i requires 0 <= i < |stages| => Join(TokenTexts(stages[i]), ","))
  }

  function Body(stages: seq<Stage>): string { Join(BodyTexts(stages), "->") }

  lemma StageInside(st: Stage)
    requires Bracketable(st)
    ensures var s := Join(TokenTexts(st), ",");
      s != "" && Trimmed(s) && Clean(s) && NoBrackets(s) && ParseStage(s) == Ok(st)
  {
    var texts := TokenTexts(st);
    forall p | p in texts ensures Clean(p) && NoBrackets(p) && p != "" && Trimmed(p) && ',' !in p {
      var i :| 0 <= i < |st| && texts[i] == p;
      assert st[i] in st;
      RereadToken(st[i]);
    }
    JoinedIsFlat(texts);
    RereadTokens(st);
    SplitOnJoined(texts, ',');
  }

  lemma {:induction false} StagesInside(stages: seq<Stage>)
    requires forall st :: st in stages ==> Bracketable(st)
    ensures ParseStages(BodyTexts(stages)) == Ok(stages)
  {
    if stages != [] {
      assert stages[0] in stages;
      StageInside(stages[0]);
      StagesInside(stages[1..]);
      BodyFirst(stages);
      ParsedStageFirst(Join(TokenTexts(stages[0]), ","), BodyTexts(stages[1..]), stages[0], stages[1..]);
      assert [stages[0]] + stages[1..] == stages;
    }
  }

  lemma BodyFirst(stages: seq<Stage>)
    requires stages != []
    ensures BodyTexts(stages) == [Join(TokenTexts(stages[0]), ",")] + BodyTexts(stages[1..])
  {
  }

  lemma ParsedStageFirst(text: string, later: seq<string>, st: Stage, stages: seq<Stage>)
    requires text != "" && Trimmed(text) && ParseStage(text) == Ok(st) && ParseStages(later) == Ok(stages)
    ensures ParseStages([text] + later) == Ok([st] + stages)
  {
    TrimSpaceIdentity(text);
    assert ([text] + later)[1..] == later;
  }

  lemma {:induction false} NoBracketsJoined(parts: seq<string>, sep: string)
    requires NoBrackets(sep) && forall p :: p in parts ==> NoBrackets(p)
    ensures NoBrackets(Join(parts, sep))
  {
    if parts != [] {
      assert parts[0] in parts;
      if |parts| > 1 { NoBracketsJoined(parts[1..], sep); }
    }
  }

  lemma BodyReads(stages: seq<Stage>)
    requires stages != [] && forall st :: st in stages ==> Bracketable(st)
    ensures NoBrackets(Body(stages)) && ParseStages(SplitArrows(Body(stages), [])) == Ok(stages)
  {
    var texts := BodyTexts(stages);
    forall p | p in texts ensures NoBrackets(p) && Clean(p) {
      var i :| 0 <= i < |stages| && texts[i] == p;
      assert stages[i] in stages;
      StageInside(stages[i]);
    }
    NoBracketsJoined(texts, ARROW);
    SplitOfJoin(texts);
    ArrowsOfFlat(Body(stages), []);
    StagesInside(stages);
  }

  // ---- A bracket and what follows it. ----

  predicate Letter(c: char) { 'A' <= c <= 'Z' || 'a' <= c <= 'z' }
  predicate Digit(c: char) { '0' <= c <= '9' }

  /** A name of letters, digits, dots, underscores and dashes that begins with a letter or a digit. */
  predicate RegionName(id: string) {
    id != "" && (Letter(id[0]) || Digit(id[0]))
    && forall i :: 0 <= i < |id| ==> Letter(id[i]) || Digit(id[i]) || id[i] == '.' || id[i] == '_' || id[i] == '-'
  }

  /** Text without arrows or brackets is clean. */
  lemma {:induction false} PlainWalk(s: string, d: nat)
    requires NoBrackets(s) && forall i :: 0 <= i < |s| ==> s[i] != '>'
    ensures Walk(s, d) == Some(d)
  {
    if s != [] { PlainWalk(s[1..], d); }
  }

  lemma NameIsPlain(id: string)
    requires RegionName(id)
    ensures ValidMapId(id) && Trimmed("*" + id) && NoBrackets("*" + id) && Walk("*" + id, 0) == Some(0)
  {
    var s := "*" + id;
    assert forall i :: 1 <= i < |s| ==> s[i] == id[i - 1];
    PlainWalk(s, 0);
  }

  lemma LastIndexBefore(a: string, b: string, c: char)
    requires a != [] && a[|a| - 1] == c && c !in b
    ensures LastIndex(a + b, c) == |a| - 1
  {
    assert (a + b)[|a| - 1] == c;
    forall j | |a| <= j < |a + b| ensures (a + b)[j] != c {
      assert (a + b)[j] == b[j - |a|];
    }
  }

  /** A bracketed body with its suffix is one clean segment, cut at its closing bracket. */
  lemma BracketParts(inner: string, suffix: string)
    requires NoBrackets(inner) && NoBrackets(suffix) && Trimmed(suffix) && Walk(suffix, 0) == Some(0)
    ensures var seg := "[" + inner + "]" + suffix;
      && TrimSpace(seg) == seg && Clean(seg) && seg[0] == '[' && LastIndex(seg, ']') == |inner| + 1
      && seg[1..|inner| + 1] == inner && seg[|inner| + 2..] == suffix
  {
    var seg := "[" + inner + "]" + suffix;
    BracketClean(inner, suffix);
    LastIndexBefore("[" + inner + "]", suffix, ']');
    TrimSpaceIdentity(seg);
    BracketSlices(inner, suffix);
  }

  lemma BracketClean(inner: string, suffix: string)
    requires NoBrackets(inner) && Trimmed(suffix) && Walk(suffix, 0) == Some(0)
    ensures var seg := "[" + inner + "]" + suffix; Clean(seg) && seg[0] == '[' && Trimmed(seg)
  {
    var seg, tail := "[" + inner + "]" + suffix, "]" + suffix;
    assert seg[1..] == inner + tail && tail[1..] == suffix && seg[|seg| - 1] == tail[|tail| - 1];
    WalkEnclosed(inner, 1, tail);
  }

  lemma BracketSlices(inner: string, suffix: string)
    ensures var seg := "[" + inner + "]" + suffix; seg[1..|inner| + 1] == inner && seg[|inner| + 2..] == suffix
  {
  }

  lemma SuffixExactly(suffix: string)
    ensures suffix == "" ==> ParseSuffix(suffix) == Ok("")
    ensures suffix != "" ==> (ParseSuffix(suffix).Ok? <==> suffix[0] == '*' && RegionName(suffix[1..]))
    ensures suffix != "" && ParseSuffix(suffix).Ok? ==> ParseSuffix(suffix) == Ok(suffix[1..]) && suffix[1..] != ""
  {
  }

  lemma BracketRead(seg: string, inner: string, suffix: string, stages: seq<Stage>)
    requires seg != "" && seg[0] == '[' && TrimSpace(seg) == seg && NoBrackets(inner) && LastIndex(seg, ']') == |inner| + 1
    requires seg[1..|inner| + 1] == inner && seg[|inner| + 2..] == suffix && Trimmed(suffix)
    requires ParseStages(SplitArrows(inner, [])) == Ok(stages)
    ensures var id := ParseSuffix(suffix);
      ParseSegment(seg) ==
        if id.Err? then Err(id.error)
        else if id.value == "" && StepCount(stages) < 2 then Err(GroupTooSmall)
        else Ok(Node(stages, id.value))
  {
    TrimSpaceIdentity(suffix);
  }

  /** A bracketed body is read as its stages: alone when it has two steps, with a suffix exactly when that is
      an asterisk and a name. */
  lemma BracketExactly(stages: seq<Stage>, suffix: string)
    requires stages != [] && forall st :: st in stages ==> Bracketable(st)
    requires NoBrackets(suffix) && Trimmed(suffix) && Walk(suffix, 0) == Some(0)
    ensures var r := ParseSegment("[" + Body(stages) + "]" + suffix);
      && (suffix == "" ==> r == if |Flat(NameGroups(stages))| >= 2 then Ok(Node(stages, "")) else Err(GroupTooSmall))
      && (suffix != "" ==> (r.Ok? <==> suffix[0] == '*' && RegionName(suffix[1..])))
      && (suffix != "" && r.Ok? ==> r.value == Node(stages, suffix[1..]))
  {
    BodyReads(stages);
    BracketParts(Body(stages), suffix);
    BracketRead("[" + Body(stages) + "]" + suffix, Body(stages), suffix, stages);
    StepsCounted(stages);
    SuffixExactly(suffix);
  }

  /** Parallel steps without a bracket are refused. */
  lemma BareParallelRefused(st: Stage)
    requires Bracketable(st) && |st| > 1
    ensures ParseSegment(Join(TokenTexts(st), ",")) == Err(UnbracketedParallel)
  {
    StageInside(st);
    var seg := Join(TokenTexts(st), ",");
    TrimSpaceIdentity(seg);
    assert seg[0] in seg;
  }

  lemma {:induction false} StepsCounted(stages: seq<Stage>)
    ensures StepCount(stages) == |Flat(NameGroups(stages))|
  {
    if stages != [] {
      assert NameGroups(stages)[1..] == NameGroups(stages[1..]);
      StepsCounted(stages[1..]);
    }
  }

  /** Every map region, whatever its body and its name, is read as that body under that name. */
  lemma RereadRegion(stages: seq<Stage>, id: string)
    requires stages != [] && (forall st :: st in stages ==> Bracketable(st)) && RegionName(id)
    ensures var seg := "[" + Body(stages) + "]" + ("*" + id);
      Clean(seg) && ParseSegment(seg) == Ok(Node(stages, id))
  {
    NameIsPlain(id);
    assert ("*" + id)[1..] == id;
    BodyReads(stages);
    BracketParts(Body(stages), "*" + id);
    BracketExactly(stages, "*" + id);
  }

  // ---- Whole pipelines. ----

  /** A node that has a text: a step, a bracket of two steps or more, or a map region. */
  predicate HasText(node: Node) {
    && node.stages != []
    && if node.mapId == "" && |node.stages| == 1 then Printable(node.stages[0])
       else
         && (forall st :: st in node.stages ==> Bracketable(st))
         && (node.mapId != "" ==> RegionName(node.mapId))
  }

  function NodeText(node: Node): string
    requires HasText(node)
  {
    if node.mapId != "" then "[" + Body(node.stages) + "]" + ("*" + node.mapId)
    else if |node.stages| == 1 then StageText(node.stages[0])
    else "[" + Body(node.stages) + "]" + ""
  }

  lemma {:induction false} TwoStagesTwoSteps(stages: seq<Stage>)
    requires forall st :: st in stages ==> Bracketable(st)
    ensures |Flat(NameGroups(stages))| >= |stages|
  {
    if stages != [] {
      assert stages[0] in stages;
      assert NameGroups(stages)[1..] == NameGroups(stages[1..]);
      TwoStagesTwoSteps(stages[1..]);
    }
  }

  lemma RereadNode(node: Node)
    requires HasText(node)
    ensures Clean(NodeText(node)) && ParseSegment(NodeText(node)) == Ok(node)
  {
    if node.mapId != "" {
      RereadRegion(node.stages, node.mapId);
    } else if |node.stages| == 1 {
      RereadStage(node.stages[0]);
      assert node.stages == [node.stages[0]];
    } else {
      BodyReads(node.stages);
      BracketParts(Body(node.stages), "");
      BracketExactly(node.stages, "");
      TwoStagesTwoSteps(node.stages);
    }
  }

  function NodeTexts(nodes: seq<Node>): seq<string>
    requires forall node :: node in nodes ==> HasText(node)
  {
    seq(|nodes|, i requires 0 <= i < |nodes| => NodeText(nodes[i]))
  }

  lemma NodesFirst(nodes: seq<Node>)
    requires nodes != [] && forall node :: node in nodes ==> HasText(node)
    ensures NodeTexts(nodes) == [NodeText(nodes[0])] + NodeTexts(nodes[1..])
  {
  }

  lemma {:induction false} RereadNodeTexts(nodes: seq<Node>)
    requires forall node :: node in nodes ==> HasText(node)
    ensures ParseSegments(NodeTexts(nodes)) == Ok(nodes)
  {
    if nodes != [] {
      assert nodes[0] in nodes;
      RereadNodeTexts(nodes[1..]);
      RereadMore(nodes[0], nodes[1..]);
      NodesFirst(nodes);
      assert [nodes[0]] + nodes[1..] == nodes;
    }
  }

  lemma RereadMore(node: Node, nodes: seq<Node>)
    requires HasText(node) && (forall node :: node in nodes ==> HasText(node)) && ParseSegments(NodeTexts(nodes)) == Ok(nodes)
    ensures ParseSegments([NodeText(node)] + NodeTexts(nodes)) == Ok([node] + nodes)
  {
    RereadNode(node);
    ParsedFirst(NodeText(node), NodeTexts(nodes), node, nodes);
  }

  /** Whatever the nodes, their texts joined by arrows are read as those nodes: single steps, groups,
      bracketed sequences and map regions, in any order. */
  lemma RereadNodes(nodes: seq<Node>)
    requires nodes != [] && forall node :: node in nodes ==> HasText(node)
    ensures ParseDsl(Join(NodeTexts(nodes), "->")) == Ok(nodes)
  {
    forall p | p in NodeTexts(nodes) ensures Clean(p) {
      var i :| 0 <= i < |nodes| && NodeText(nodes[i]) == p;
      assert nodes[i] in nodes;
      RereadNode(nodes[i]);
    }
    SplitOfJoin(NodeTexts(nodes));
    RereadNodeTexts(nodes);
  }

  /** A pipeline that is one map region: every reference it compiles to is in that region. */
  lemma RegionResolved(stages: seq<Stage>, id: string, catalog: map<string, string>)
    requires stages != [] && (forall st :: st in stages ==> Bracketable(st)) && RegionName(id)
    ensures var text := "[" + Body(stages) + "]" + ("*" + id);
      && ParseDsl(text) == Ok([Node(stages, id)])
      && var refs := Resolve(Place([Node(stages, id)]), catalog);
         refs.Ok? ==> |refs.value| == |Tokens(stages)| && forall i :: 0 <= i < |refs.value| ==>
           refs.value[i].mapId == id && refs.value[i].name == Tokens(stages)[i].name
  {
    var node := Node(stages, id);
    RereadNodes([node]);
    assert NodeTexts([node]) == [NodeText(node)] && Join([NodeText(node)], "->") == NodeText(node);
    PlacedTokensOfNode(stages, id);
    assert [node][1..] == [] && Place([]) == [] && Place([node]) == PlaceStages(stages, id) + [];
    if Resolve(Place([node]), catalog).Ok? { ResolvedRefs(Place([node]), catalog); }
  }
}
