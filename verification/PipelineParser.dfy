/** From pipeline text to nodes. */
module PipelineParser {
  import opened Options
  import opened Text
  import opened PipelineDsl

  // ---- The grammar. ----

  function SplitStepRepo(tok: string): StepToken {
    var (name, repo) := Cut(tok, '@');
    StepToken(TrimSpace(name), match repo case Some(r) => TrimSpace(r) case None => "")
  }

  function Consed<T>(head: T, r: Result<seq<T>, DslError>): Result<seq<T>, DslError> {
    match r case Ok(tail) => Ok([head] + tail) case Err(e) => Err(e)
  }

  function ParseTokens(parts: seq<string>): Result<Stage, DslError> {
    if parts == [] then Ok([])
    else
      var t := SplitStepRepo(parts[0]);
      if t.name == "" then Err(EmptyStepName) else Consed(t, ParseTokens(parts[1..]))
  }

  function ParseStage(seg: string): Result<Stage, DslError> { ParseTokens(SplitOn(seg, ',')) }

  /** strings.Split at "->". */
  function SplitArrows(s: string, cur: string): seq<string>
    decreases |s|
  {
    if s == [] then [cur]
    else if StartsArrow(s) then [cur] + SplitArrows(s[2..], [])
    else SplitArrows(s[1..], cur + [s[0]])
  }

  function ParseStages(segs: seq<string>): Result<seq<Stage>, DslError> {
    if segs == [] then Ok([])
    else
      var seg := TrimSpace(segs[0]);
      if seg == "" then Err(EmptyStage)
      else match ParseStage(seg)
        case Err(e) => Err(e)
        case Ok(st) => Consed(st, ParseStages(segs[1..]))
  }

  function LastIndex(s: string, c: char): (i: int)
    ensures -1 <= i < |s| && (i >= 0 ==> s[i] == c) && forall j :: i < j < |s| ==> s[j] != c
  {
    if s == [] then -1 else if s[|s| - 1] == c then |s| - 1 else LastIndex(s[..|s| - 1], c)
  }

  predicate ValidMapId(id: string) {
    id != [] && Alphanumeric(id[0]) && forall i :: 0 <= i < |id| ==> Alphanumeric(id[i]) || id[i] in "._-"
  }

  /** The map region a bracket's suffix names; "" for none. */
  function ParseSuffix(suffix: string): Result<string, DslError> {
    if suffix == "" then Ok("")
    else if suffix[0] != '*' then Err(BadSuffix)
    else if !ValidMapId(suffix[1..]) then Err(BadMapId)
    else Ok(suffix[1..])
  }

  function StepCount(stages: seq<Stage>): nat {
    if stages == [] then 0 else |stages[0]| + StepCount(stages[1..])
  }

  function ParseBare(seg: string): Result<Node, DslError> {
    match ParseStage(seg)
    case Err(e) => Err(e)
    case Ok(st) => if |st| > 1 then Err(UnbracketedParallel) else Ok(Node([st], ""))
  }

  function ParseBracket(seg: string): Result<Node, DslError> {
    var close := LastIndex(seg, ']');
    if close < 1 then Err(UnclosedOpen)
    else
      var inner := seg[1..close];
      if '[' in inner then Err(NestedBracket)
      else match ParseSuffix(TrimSpace(seg[close + 1..]))
        case Err(e) => Err(e)
        case Ok(id) =>
          match ParseStages(SplitArrows(inner, []))
          case Err(e) => Err(e)
          case Ok(stages) =>
            if id == "" && StepCount(stages) < 2 then Err(GroupTooSmall) else Ok(Node(stages, id))
  }

  function ParseSegment(raw: string): Result<Node, DslError> {
    var seg := TrimSpace(raw);
    if seg == "" then Err(EmptySegment)
    else if seg[0] != '[' then ParseBare(seg)
    else ParseBracket(seg)
  }

  function ParseSegments(pieces: seq<string>): Result<seq<Node>, DslError> {
    if pieces == [] then Ok([])
    else match ParseSegment(pieces[0])
      case Err(e) => Err(e)
      case Ok(node) => Consed(node, ParseSegments(pieces[1..]))
  }

  function ParseDsl(dsl: string): Result<seq<Node>, DslError> {
    match SplitTop(dsl)
    case Err(e) => Err(e)
    case Ok(pieces) => ParseSegments(pieces)
  }

  // ---- The parser's loops compute the grammar. ----

  function Appended<T>(before: seq<T>, r: Result<seq<T>, DslError>): Result<seq<T>, DslError> {
    match r case Ok(tail) => Ok(before + tail) case Err(e) => Err(e)
  }

  method ParseStageTokens(seg: string) returns (r: Result<Stage, DslError>)
    ensures r == ParseStage(seg)
  {
    var parts := SplitOn(seg, ',');
    var st: Stage := [];
    assert parts[0..] == parts;
    assert ParseTokens(parts).Ok? ==> st + ParseTokens(parts).value == ParseTokens(parts).value;
    for i := 0 to |parts|
      invariant Appended(st, ParseTokens(parts[i..])) == ParseTokens(parts)
    {
      var t := SplitStepRepo(parts[i]);
      if t.name == "" {
        return Err(EmptyStepName);
      }
      assert parts[i..][1..] == parts[i + 1..];
      ghost var rest := ParseTokens(parts[i + 1..]);
      assert rest.Ok? ==> st + ([t] + rest.value) == (st + [t]) + rest.value;
      st := st + [t];
    }
    assert st + [] == st && parts[|parts|..] == [];
    return Ok(st);
  }

  method ParseStageList(segs: seq<string>) returns (r: Result<seq<Stage>, DslError>)
    ensures r == ParseStages(segs)
  {
    var stages: seq<Stage> := [];
    assert segs[0..] == segs;
    assert ParseStages(segs).Ok? ==> stages + ParseStages(segs).value == ParseStages(segs).value;
    for i := 0 to |segs|
      invariant Appended(stages, ParseStages(segs[i..])) == ParseStages(segs)
    {
      var seg := TrimSpace(segs[i]);
      if seg == "" {
        return Err(EmptyStage);
      }
      var parsed := ParseStageTokens(seg);
      if parsed.Err? {
        return Err(parsed.error);
      }
      assert segs[i..][1..] == segs[i + 1..];
      ghost var rest := ParseStages(segs[i + 1..]);
      assert rest.Ok? ==> stages + ([parsed.value] + rest.value) == (stages + [parsed.value]) + rest.value;
      stages := stages + [parsed.value];
    }
    assert stages + [] == stages && segs[|segs|..] == [];
    return Ok(stages);
  }

  method CountSteps(stages: seq<Stage>) returns (total: nat)
    ensures total == StepCount(stages)
  {
    total := 0;
    assert stages[0..] == stages;
    for i := 0 to |stages|
      invariant total + StepCount(stages[i..]) == StepCount(stages)
    {
      assert stages[i..][1..] == stages[i + 1..];
      total := total + |stages[i]|;
    }
  }

  method ParsePiece(raw: string) returns (r: Result<Node, DslError>)
    ensures r == ParseSegment(raw)
  {
    var seg := TrimSpace(raw);
    if seg == "" {
      return Err(EmptySegment);
    }
    if seg[0] != '[' {
      var st := ParseStageTokens(seg);
      if st.Err? {
        return Err(st.error);
      }
      if |st.value| > 1 {
        return Err(UnbracketedParallel);
      }
      return Ok(Node([st.value], ""));
    }
    var close := LastIndex(seg, ']');
    if close < 1 {
      return Err(UnclosedOpen);
    }
    var inner := seg[1..close];
    if '[' in inner {
      return Err(NestedBracket);
    }
    var id := ParseSuffix(TrimSpace(seg[close + 1..]));
    if id.Err? {
      return Err(id.error);
    }
    var stages := ParseStageList(SplitArrows(inner, []));
    if stages.Err? {
      return Err(stages.error);
    }
    if id.value == "" {
      var total := CountSteps(stages.value);
      if total < 2 {
        return Err(GroupTooSmall);
      }
    }
    return Ok(Node(stages.value, id.value));
  }

  method ParsePipeline(dsl: string) returns (r: Result<seq<Node>, DslError>)
    ensures r == ParseDsl(dsl)
  {
    var split := SplitTopLevel(dsl);
    if split.Err? {
      return Err(split.error);
    }
    var pieces := split.value;
    var nodes: seq<Node> := [];
    assert pieces[0..] == pieces;
    assert ParseSegments(pieces).Ok? ==> nodes + ParseSegments(pieces).value == ParseSegments(pieces).value;
    for i := 0 to |pieces|
      invariant Appended(nodes, ParseSegments(pieces[i..])) == ParseSegments(pieces)
    {
      var node := ParsePiece(pieces[i]);
      if node.Err? {
        return Err(node.error);
      }
      assert pieces[i..][1..] == pieces[i + 1..];
      ghost var rest := ParseSegments(pieces[i + 1..]);
      assert rest.Ok? ==> nodes + ([node.value] + rest.value) == (nodes + [node.value]) + rest.value;
      nodes := nodes + [node.value];
    }
    assert nodes + [] == nodes && pieces[|pieces|..] == [];
    return Ok(nodes);
  }

  // ---- What parsed steps look like. ----

  predicate GoodToken(t: StepToken) {
    t.name != [] && Trimmed(t.name) && Trimmed(t.repo) && '@' !in t.name && ',' !in t.name && ',' !in t.repo
  }

  /** A step as the printer writes it. */
  function TokenText(t: StepToken): string { if t.repo == "" then t.name else t.name + "@" + t.repo }

  predicate NoBrackets(s: string) { '[' !in s && ']' !in s }

  predicate Printable(st: Stage) {
    && st != []
    && (forall t :: t in st ==> GoodToken(t) && Clean(TokenText(t)))
    && (if |st| == 1 then TokenText(st[0])[0] != '[' else forall t :: t in st ==> NoBrackets(TokenText(t)))
  }

  predicate PrintableNode(node: Node) { node.stages != [] && forall st :: st in node.stages ==> Printable(st) }

  lemma {:induction false} WalkTrimLeft(s: string, d: nat)
    ensures Walk(TrimLeft(s), d) == Walk(s, d)
  {
    if s != [] && IsSpace(s[0]) { WalkTrimLeft(s[1..], d); }
  }

  lemma {:induction false} WalkTrimRight(s: string, d: nat)
    ensures Walk(TrimRight(s), d) == Walk(s, d)
  {
    if s != [] && IsSpace(s[|s| - 1]) {
      var last := |s| - 1;
      WalkTrimRight(s[..last], d);
      WalkConcat(s[..last], [s[last]], d);
      assert s[..last] + [s[last]] == s;
    }
  }

  lemma WalkTrim(s: string, d: nat)
    ensures Walk(TrimSpace(s), d) == Walk(s, d)
  {
    WalkTrimLeft(s, d);
    WalkTrimRight(TrimLeft(s), d);
  }

  lemma WalkToken(t: StepToken, d: nat)
    ensures Walk(TokenText(t), d) == match Walk(t.name, d) case Some(e) => Walk(t.repo, e) case None => None
  {
    if t.repo != "" {
      WalkConcat(t.name, "@" + t.repo, d);
      assert t.name + "@" + t.repo == t.name + ("@" + t.repo);
      assert ("@" + t.repo)[1..] == t.repo;
    }
  }

  lemma TokenIsGood(part: string)
    requires ',' !in part && SplitStepRepo(part).name != ""
    ensures GoodToken(SplitStepRepo(part))
    ensures forall c :: c in TokenText(SplitStepRepo(part)) ==> c in part
  {
    var (name, repo) := Cut(part, '@');
    TrimSpaceResult(name);
    if repo.Some? { TrimSpaceResult(repo.value); }
  }

  lemma TokenWalk(part: string)
    ensures Walk(TokenText(SplitStepRepo(part)), 0) == Walk(part, 0)
  {
    var (name, repo) := Cut(part, '@');
    WalkToken(SplitStepRepo(part), 0);
    WalkTrim(name, 0);
    if repo.Some? {
      var tail := ['@'] + repo.value;
      assert part == name + tail && tail[1..] == repo.value;
      WalkConcat(name, tail, 0);
      if Walk(name, 0).Some? { WalkTrim(repo.value, Walk(name, 0).value); }
    }
  }

  /** Reading a token drops blanks and nothing else that matters to brackets and arrows. */
  lemma TokenOfPart(part: string)
    requires ',' !in part && SplitStepRepo(part).name != ""
    ensures GoodToken(SplitStepRepo(part)) && Walk(TokenText(SplitStepRepo(part)), 0) == Walk(part, 0)
    ensures forall c :: c in TokenText(SplitStepRepo(part)) ==> c in part
  {
    TokenIsGood(part);
    TokenWalk(part);
  }

  /** Without brackets the depth never changes. */
  lemma {:induction false} FlatWalk(s: string, d: nat)
    requires NoBrackets(s) && Walk(s, d).Some?
    ensures Walk(s, d).value == d
  {
    if s != [] { FlatWalk(s[1..], d); }
  }

  lemma {:induction false} PartsAreClean(s: string)
    requires NoBrackets(s) && Clean(s)
    ensures forall p :: p in SplitOn(s, ',') ==> Clean(p) && NoBrackets(p)
    decreases |s|
  {
    var (before, after) := Cut(s, ',');
    if after.Some? {
      var tail := [','] + after.value;
      assert s == before + tail;
      WalkConcat(before, tail, 0);
      FlatWalk(before, 0);
      assert tail[1..] == after.value;
      PartsAreClean(after.value);
    }
  }

  lemma {:induction false} TokensOfParts(parts: seq<string>)
    requires ParseTokens(parts).Ok? && forall p :: p in parts ==> ',' !in p && Clean(p)
    ensures |ParseTokens(parts).value| == |parts|
    ensures forall t :: t in ParseTokens(parts).value ==> GoodToken(t) && Clean(TokenText(t))
    ensures (forall p :: p in parts ==> NoBrackets(p)) ==> forall t :: t in ParseTokens(parts).value ==> NoBrackets(TokenText(t))
  {
    if parts != [] {
      assert parts[0] in parts;
      TokenOfPart(parts[0]);
      TokensOfParts(parts[1..]);
    }
  }

  lemma BareIsPrintable(seg: string)
    requires Trimmed(seg) && seg != "" && seg[0] != '[' && Clean(seg) && ParseBare(seg).Ok?
    ensures PrintableNode(ParseBare(seg).value)
  {
    SplitOnParts(seg, ',');
    var parts := SplitOn(seg, ',');
    if |parts| == 1 {
      assert parts[0] == seg && parts == [seg];
      TokensOfParts(parts);
      var t := SplitStepRepo(seg);
      assert ParseTokens(parts).value == [t];
      var (name, repo) := Cut(seg, '@');
      TrimKeepsHead(name, seg);
    } else {
      TokenCount(parts);
    }
  }

  lemma TrimKeepsHead(name: string, seg: string)
    requires Trimmed(seg) && name <= seg && TrimSpace(name) != ""
    ensures TrimSpace(name)[0] == seg[0]
  {
    if name != [] {
      assert name[0] == seg[0];
      TrimRightResult(name);
    }
  }

  lemma {:induction false} TokenCount(parts: seq<string>)
    requires ParseTokens(parts).Ok?
    ensures |ParseTokens(parts).value| == |parts|
  {
    if parts != [] { TokenCount(parts[1..]); }
  }

  lemma {:induction false} ArrowsOfFlat(s: string, cur: string)
    requires NoBrackets(s)
    ensures SplitFrom(s, 0, cur) == Ok(SplitArrows(s, cur))
    decreases |s|
  {
    if s != [] {
      if StartsArrow(s) { ArrowsOfFlat(s[2..], []); } else { ArrowsOfFlat(s[1..], cur + [s[0]]); }
    }
  }

  lemma {:induction false} JoinChars(parts: seq<string>, sep: string, p: string, c: char)
    requires p in parts && c in p
    ensures c in Join(parts, sep)
  {
    if |parts| > 1 && p != parts[0] {
      JoinChars(parts[1..], sep, p, c);
    }
  }

  /** After an opening bracket, text with no other opening bracket has no closing one before its last. */
  lemma {:induction false} ClosesOnce(s: string, d: nat)
    requires '[' !in s && Walk(s, d).Some?
    ensures multiset(s)[']'] <= d
  {
    if s != [] {
      assert s == [s[0]] + s[1..];
      assert multiset(s) == multiset{s[0]} + multiset(s[1..]);
      ClosesOnce(s[1..], if s[0] == ']' then d - 1 else d);
    }
  }

  lemma InnerHasNoBrackets(seg: string, close: nat)
    requires Clean(seg) && 1 <= close < |seg| && seg[0] == '[' && seg[close] == ']' && '[' !in seg[1..close]
    ensures NoBrackets(seg[1..close])
  {
    var inner, head := seg[1..close], seg[..close + 1];
    assert seg == head + seg[close + 1..];
    WalkConcat(head, seg[close + 1..], 0);
    assert head[1..] == inner + [']'];
    ClosesOnce(inner + [']'], 1);
    assert multiset(inner + [']']) == multiset(inner) + multiset{']'};
  }

  lemma {:induction false} StagesArePrintable(segs: seq<string>)
    requires ParseStages(segs).Ok? && forall p :: p in segs ==> Clean(p) && NoBrackets(p)
    ensures |ParseStages(segs).value| == |segs|
    ensures forall st :: st in ParseStages(segs).value ==> Printable(st)
  {
    if segs != [] {
      assert segs[0] in segs;
      var seg := TrimSpace(segs[0]);
      WalkTrim(segs[0], 0);
      TrimSpaceResult(segs[0]);
      SplitOnParts(seg, ',');
      PartsAreClean(seg);
      TokensOfParts(SplitOn(seg, ','));
      var st := ParseStage(seg).value;
      assert st[0] in st;
      assert Printable(st);
      StagesArePrintable(segs[1..]);
    }
  }

  lemma BracketIsPrintable(seg: string)
    requires seg != "" && seg[0] == '[' && Clean(seg) && ParseBracket(seg).Ok?
    ensures PrintableNode(ParseBracket(seg).value)
  {
    var close := LastIndex(seg, ']');
    var inner := seg[1..close];
    InnerHasNoBrackets(seg, close);
    var pieces := SplitArrows(inner, []);
    ArrowsOfFlat(inner, []);
    SplitPieces(inner, 0, []);
    assert [] + inner == inner;
    forall p, c | p in pieces && c in p ensures c in inner { JoinChars(pieces, ARROW, p, c); }
    StagesArePrintable(pieces);
  }

  lemma {:induction false} SegmentsArePrintable(pieces: seq<string>)
    requires ParseSegments(pieces).Ok? && forall p :: p in pieces ==> Clean(p)
    ensures |ParseSegments(pieces).value| == |pieces|
    ensures forall node :: node in ParseSegments(pieces).value ==> PrintableNode(node)
  {
    if pieces != [] {
      assert pieces[0] in pieces;
      var seg := TrimSpace(pieces[0]);
      WalkTrim(pieces[0], 0);
      TrimSpaceResult(pieces[0]);
      if seg[0] == '[' { BracketIsPrintable(seg); } else { BareIsPrintable(seg); }
      SegmentsArePrintable(pieces[1..]);
    }
  }

  /** Every step of an accepted pipeline text can be written back as text the parser reads the same. */
  lemma ParsedIsPrintable(dsl: string)
    requires ParseDsl(dsl).Ok?
    ensures ParseDsl(dsl).value != []
    ensures forall node :: node in ParseDsl(dsl).value ==> PrintableNode(node)
  {
    SplitPieces(dsl, 0, []);
    SegmentsArePrintable(SplitTop(dsl).value);
  }

  // ---- Printing stages and reading them again. ----

  function TokenTexts(st: Stage): (texts: seq<string>)
    ensures |texts| == |st|
  {
    seq(|st|, i requires 0 <= i < |st| => TokenText(st[i]))
  }

  function StageText(st: Stage): string {
    if |st| == 1 then TokenText(st[0]) else "[" + Join(TokenTexts(st), ",") + "]"
  }

  function StageTexts(stages: seq<Stage>): seq<string> {
    seq(|stages|, i requires 0 <= i < |stages| => StageText(stages[i]))
  }

  lemma RereadToken(t: StepToken)
    requires GoodToken(t)
    ensures SplitStepRepo(TokenText(t)) == t && ',' !in TokenText(t)
    ensures TokenText(t) != "" && Trimmed(TokenText(t))
  {
    TrimSpaceIdentity(t.name);
    if t.repo == "" {
      CutAbsent(t.name, '@');
    } else {
      TrimSpaceIdentity(t.repo);
      CutJoined(t.name, '@', t.repo);
      assert t.name + "@" + t.repo == t.name + ['@'] + t.repo;
    }
  }

  lemma TextsAreGood(st: Stage, p: string)
    requires (forall t :: t in st ==> GoodToken(t)) && p in TokenTexts(st)
    ensures ',' !in p && p != "" && Trimmed(p)
  {
    var i :| 0 <= i < |st| && TokenTexts(st)[i] == p;
    assert st[i] in st;
    RereadToken(st[i]);
  }

  lemma {:induction false} RereadTokens(st: Stage)
    requires forall t :: t in st ==> GoodToken(t)
    ensures ParseTokens(TokenTexts(st)) == Ok(st)
  {
    if st != [] {
      assert st[0] in st;
      RereadToken(st[0]);
      assert TokenTexts(st)[1..] == TokenTexts(st[1..]);
      RereadTokens(st[1..]);
      assert [st[0]] + st[1..] == st;
    }
  }

  lemma {:induction false} JoinedIsFlat(parts: seq<string>)
    requires parts != [] && forall p :: p in parts ==> Clean(p) && NoBrackets(p) && p != "" && Trimmed(p)
    ensures var s := Join(parts, ","); Clean(s) && NoBrackets(s) && s != "" && Trimmed(s)
  {
    assert parts[0] in parts;
    if |parts| > 1 {
      var rest := Join(parts[1..], ",");
      JoinedIsFlat(parts[1..]);
      WalkConcat(parts[0], "," + rest, 0);
      assert ("," + rest)[1..] == rest;
      assert parts[0] + "," + rest == parts[0] + ("," + rest);
    }
  }

  lemma {:induction false} WalkEnclosed(s: string, d: nat, tail: string)
    requires NoBrackets(s) && d > 0
    ensures Walk(s + tail, d) == Walk(tail, d)
  {
    if s == [] {
      assert s + tail == tail;
    } else {
      assert (s + tail)[1..] == s[1..] + tail;
      WalkEnclosed(s[1..], d, tail);
    }
  }

  lemma LastIndexOfEnd(s: string, c: char)
    requires s != [] && s[|s| - 1] == c
    ensures LastIndex(s, c) == |s| - 1
  {
  }

  lemma RereadSingle(st: Stage)
    requires Printable(st) && |st| == 1
    ensures Clean(StageText(st)) && ParseSegment(StageText(st)) == Ok(Node([st], ""))
  {
    assert st[0] in st;
    RereadToken(st[0]);
    RereadTokens(st);
    var texts := TokenTexts(st);
    assert texts == [TokenText(st[0])] && Join(texts, ",") == TokenText(st[0]);
    SplitOnJoined(texts, ',');
    TrimSpaceIdentity(TokenText(st[0]));
  }

  lemma TextsAreFlat(st: Stage)
    requires Printable(st) && |st| > 1
    ensures forall p :: p in TokenTexts(st) ==> Clean(p) && NoBrackets(p) && p != "" && Trimmed(p) && ',' !in p
  {
    forall i | 0 <= i < |st| ensures var p := TokenTexts(st)[i]; Clean(p) && NoBrackets(p) {
      assert st[i] in st;
    }
    forall p | p in TokenTexts(st) ensures p != "" && Trimmed(p) && ',' !in p { TextsAreGood(st, p); }
  }

  /** The inside of a printed group reads back as its one stage. */
  lemma RereadInner(st: Stage)
    requires Printable(st) && |st| > 1
    ensures var inner := Join(TokenTexts(st), ",");
      Clean(inner) && NoBrackets(inner) && ParseStages(SplitArrows(inner, [])) == Ok([st])
  {
    var texts := TokenTexts(st);
    var inner := Join(texts, ",");
    TextsAreFlat(st);
    JoinedIsFlat(texts);
    assert SplitArrows(inner, []) == [inner] by {
      ArrowsOfFlat(inner, []);
      SplitOfJoin([inner]);
    }
    assert ParseStage(inner) == Ok(st) by {
      RereadTokens(st);
      SplitOnJoined(texts, ',');
    }
    TrimSpaceIdentity(inner);
    assert [inner][1..] == [] && ParseStages([]) == Ok([]);
    assert [st] + [] == [st];
  }

  lemma BracketText(inner: string)
    requires NoBrackets(inner)
    ensures var seg := "[" + inner + "]";
      Trimmed(seg) && Clean(seg) && LastIndex(seg, ']') == |seg| - 1 && seg[1..|seg| - 1] == inner && seg[|seg|..] == ""
  {
    var seg := "[" + inner + "]";
    assert seg[1..] == inner + "]" && seg[|seg| - 1] == ']';
    WalkEnclosed(inner, 1, "]");
    LastIndexOfEnd(seg, ']');
  }

  /** A printed stage is one clean segment that parses to exactly that stage. */
  lemma RereadStage(st: Stage)
    requires Printable(st)
    ensures Clean(StageText(st)) && ParseSegment(StageText(st)) == Ok(Node([st], ""))
  {
    if |st| == 1 {
      RereadSingle(st);
    } else {
      RereadInner(st);
      BracketText(Join(TokenTexts(st), ","));
      TrimSpaceIdentity(StageText(st));
      assert StepCount([st]) == |st|;
    }
  }

  function SingleStageNodes(stages: seq<Stage>): seq<Node> {
    seq(|stages|, i requires 0 <= i < |stages| => Node([stages[i]], ""))
  }

  lemma StagesFirst(stages: seq<Stage>)
    requires stages != []
    ensures StageTexts(stages) == [StageText(stages[0])] + StageTexts(stages[1..])
    ensures SingleStageNodes(stages) == [Node([stages[0]], "")] + SingleStageNodes(stages[1..])
  {
  }

  lemma ParsedFirst(text: string, later: seq<string>, node: Node, nodes: seq<Node>)
    requires ParseSegment(text) == Ok(node) && ParseSegments(later) == Ok(nodes)
    ensures ParseSegments([text] + later) == Ok([node] + nodes)
  {
    assert ([text] + later)[1..] == later;
  }

  lemma {:induction false} RereadSegments(stages: seq<Stage>)
    requires forall st :: st in stages ==> Printable(st)
    ensures ParseSegments(StageTexts(stages)) == Ok(SingleStageNodes(stages))
  {
    if stages != [] {
      assert stages[0] in stages;
      RereadStage(stages[0]);
      RereadSegments(stages[1..]);
      StagesFirst(stages);
      ParsedFirst(StageText(stages[0]), StageTexts(stages[1..]), Node([stages[0]], ""), SingleStageNodes(stages[1..]));
    } else {
      assert StageTexts(stages) == [] && SingleStageNodes(stages) == [];
    }
  }

  /** Printed stages joined by arrows parse back to those stages, one per segment. */
  lemma RereadPipeline(stages: seq<Stage>)
    requires stages != [] && forall st :: st in stages ==> Printable(st)
    ensures ParseDsl(Join(StageTexts(stages), ARROW)) == Ok(SingleStageNodes(stages))
  {
    forall p | p in StageTexts(stages) ensures Clean(p) {
      var i :| 0 <= i < |stages| && StageText(stages[i]) == p;
      assert stages[i] in stages;
      RereadStage(stages[i]);
    }
    SplitOfJoin(StageTexts(stages));
    RereadSegments(stages);
  }
}
