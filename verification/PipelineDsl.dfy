/** The one-line pipeline language: "->" separates segments, "[a,b]" runs steps together,
    "[body]*id" is a map region, "name@repo" gives a step its git repository. */
module PipelineDsl {
  import opened Options
  import opened Text

  datatype DslError =
    | UnexpectedClose | UnclosedOpen | EmptySegment | EmptyStepName | UnbracketedParallel
    | NestedBracket | BadSuffix | BadMapId | EmptyStage | GroupTooSmall | StepNotFound(name: string)

  datatype StepToken = StepToken(name: string, repo: string)
  type Stage = seq<StepToken>
  datatype Node = Node(stages: seq<Stage>, mapId: string)

  const ARROW := "->"

  predicate StartsArrow(s: string) { |s| >= 2 && s[0] == '-' && s[1] == '>' }

  // ---- Splitting at the arrows outside brackets. ----

  /** The pieces still to come when `depth` brackets are open and the current piece is `cur`. */
  function SplitFrom(s: string, depth: nat, cur: string): Result<seq<string>, DslError>
    decreases |s|
  {
    if s == [] then if depth == 0 then Ok([cur]) else Err(UnclosedOpen)
    else if s[0] == '[' then SplitFrom(s[1..], depth + 1, cur + [s[0]])
    else if s[0] == ']' then
      if depth == 0 then Err(UnexpectedClose) else SplitFrom(s[1..], depth - 1, cur + [s[0]])
    else if depth == 0 && StartsArrow(s) then
      match SplitFrom(s[2..], 0, [])
      case Ok(pieces) => Ok([cur] + pieces)
      case Err(e) => Err(e)
    else SplitFrom(s[1..], depth, cur + [s[0]])
  }

  function SplitTop(dsl: string): Result<seq<string>, DslError> { SplitFrom(dsl, 0, []) }

  function Prepended(before: seq<string>, r: Result<seq<string>, DslError>): Result<seq<string>, DslError> {
    match r case Ok(pieces) => Ok(before + pieces) case Err(e) => Err(e)
  }

  method SplitTopLevel(dsl: string) returns (r: Result<seq<string>, DslError>)
    ensures r == SplitTop(dsl)
  {
    var out: seq<string> := [];
    var depth, start, i := 0, 0, 0;
    assert dsl[0..] == dsl && dsl[0..0] == [];
    assert SplitTop(dsl).Ok? ==> out + SplitTop(dsl).value == SplitTop(dsl).value;
    while i < |dsl|
      invariant 0 <= start <= i <= |dsl| && depth >= 0
      invariant Prepended(out, SplitFrom(dsl[i..], depth, dsl[start..i])) == SplitTop(dsl)
    {
      var rest := dsl[i..];
      assert rest[1..] == dsl[i + 1..] && dsl[start..i] + [dsl[i]] == dsl[start..i + 1];
      match dsl[i] {
        case '[' => depth := depth + 1;
        case ']' =>
          depth := depth - 1;
          if depth < 0 {
            return Err(UnexpectedClose);
          }
        case '-' =>
          if depth == 0 && i + 1 < |dsl| && dsl[i + 1] == '>' {
            assert rest[2..] == dsl[i + 2..];
            ghost var tail := SplitFrom(dsl[i + 2..], 0, []);
            assert tail.Ok? ==> out + ([dsl[start..i]] + tail.value) == (out + [dsl[start..i]]) + tail.value;
            out := out + [dsl[start..i]];
            i := i + 1;
            start := i + 1;
            assert dsl[start..start] == [];
          }
        case _ =>
      }
      i := i + 1;
    }
    if depth != 0 {
      return Err(UnclosedOpen);
    }
    assert dsl[i..] == [] && dsl[start..i] == dsl[start..];
    return Ok(out + [dsl[start..]]);
  }

  // ---- What the pieces are. ----

  /** How many brackets are open after the first i characters. */
  function Depth(s: string, i: nat): int
    requires i <= |s|
  {
    if i == 0 then 0 else Depth(s, i - 1) + match s[i - 1] case '[' => 1 case ']' => -1 case _ => 0
  }

  /** No bracket closes before it opens, when d are open already. */
  ghost predicate NeverNegative(s: string, d: int) { forall i :: 0 <= i <= |s| ==> d + Depth(s, i) >= 0 }

  /** No "->" stands at depth zero, when d brackets are open already. */
  ghost predicate NoArrowAtZero(s: string, d: int) {
    forall i :: 0 <= i < |s| && StartsArrow(s[i..]) ==> d + Depth(s, i) != 0
  }

  ghost predicate Balanced(s: string) { NeverNegative(s, 0) && Depth(s, |s|) == 0 }

  ghost predicate NoTopArrow(s: string) { NoArrowAtZero(s, 0) }

  /** The depth after reading s from depth d; nothing when a bracket closes too early or an arrow
      stands outside brackets. */
  function Walk(s: string, d: nat): Option<nat> {
    if s == [] then Some(d)
    else if s[0] == '[' then Walk(s[1..], d + 1)
    else if s[0] == ']' then if d == 0 then None else Walk(s[1..], d - 1)
    else if d == 0 && StartsArrow(s) then None
    else Walk(s[1..], d)
  }

  /** A single piece: balanced and without a top-level arrow. */
  predicate Clean(s: string) { Walk(s, 0) == Some(0) }

  lemma {:induction false} DepthTail(s: string, i: nat)
    requires 1 <= i <= |s|
    ensures Depth(s, i) == Depth(s, 1) + Depth(s[1..], i - 1)
  {
    if i > 1 { DepthTail(s, i - 1); }
  }

  lemma NeverNegativeTail(s: string, d: int)
    requires s != []
    ensures NeverNegative(s, d) <==> d >= 0 && NeverNegative(s[1..], d + Depth(s, 1))
  {
    forall i | 1 <= i <= |s| ensures Depth(s, i) == Depth(s, 1) + Depth(s[1..], i - 1) { DepthTail(s, i); }
    if NeverNegative(s, d) {
      assert d + Depth(s, 0) >= 0;
      forall i | 0 <= i <= |s[1..]| ensures d + Depth(s, 1) + Depth(s[1..], i) >= 0 { assert d + Depth(s, i + 1) >= 0; }
    }
    if d >= 0 && NeverNegative(s[1..], d + Depth(s, 1)) {
      forall i | 0 <= i <= |s| ensures d + Depth(s, i) >= 0 {
        if i > 0 { assert d + Depth(s, 1) + Depth(s[1..], i - 1) >= 0; }
      }
    }
  }

  lemma NoArrowTail(s: string, d: int)
    requires s != []
    ensures NoArrowAtZero(s, d) <==> !(StartsArrow(s) && d == 0) && NoArrowAtZero(s[1..], d + Depth(s, 1))
  {
    var t := s[1..];
    forall i | 1 <= i <= |s| ensures Depth(s, i) == Depth(s, 1) + Depth(t, i - 1) && s[i..] == t[i - 1..] { DepthTail(s, i); }
    assert s[0..] == s;
    if NoArrowAtZero(s, d) {
      forall i | 0 <= i < |t| && StartsArrow(t[i..]) ensures d + Depth(s, 1) + Depth(t, i) != 0 {
        assert s[i + 1..] == t[i..] && d + Depth(s, i + 1) != 0;
      }
    }
    if !(StartsArrow(s) && d == 0) && NoArrowAtZero(t, d + Depth(s, 1)) {
      forall i | 0 <= i < |s| && StartsArrow(s[i..]) ensures d + Depth(s, i) != 0 {
        if i > 0 { assert StartsArrow(t[i - 1..]); }
      }
    }
  }

  lemma {:induction false} WalkMeaning(s: string, d: nat)
    ensures Walk(s, d).Some? <==> NeverNegative(s, d) && NoArrowAtZero(s, d)
    ensures Walk(s, d).Some? ==> Walk(s, d).value == d + Depth(s, |s|)
    decreases |s|
  {
    if s != [] {
      assert Depth(s, 0) == 0;
      NeverNegativeTail(s, d);
      NoArrowTail(s, d);
      DepthTail(s, |s|);
      var e := d + Depth(s, 1);
      if e >= 0 {
        WalkMeaning(s[1..], e);
      } else {
        assert e + Depth(s[1..], 0) < 0;
      }
    }
  }

  lemma CleanMeaning(s: string)
    ensures Clean(s) <==> Balanced(s) && NoTopArrow(s)
  {
    WalkMeaning(s, 0);
  }

  /** An arrow straddles the boundary between a text and what follows it. */
  predicate Straddles(a: string, b: string) { a != [] && b != [] && a[|a| - 1] == '-' && b[0] == '>' }

  lemma {:induction false} WalkConcat(a: string, b: string, d: nat)
    requires !Straddles(a, b)
    ensures Walk(a + b, d) == match Walk(a, d) case Some(e) => Walk(b, e) case None => None
    decreases |a|
  {
    if a == [] {
      assert a + b == b;
    } else {
      assert (a + b)[1..] == a[1..] + b;
      assert StartsArrow(a + b) <==> StartsArrow(a);
      if a[0] == '[' { WalkConcat(a[1..], b, d + 1); }
      else if a[0] == ']' { if d > 0 { WalkConcat(a[1..], b, d - 1); } }
      else { WalkConcat(a[1..], b, d); }
    }
  }

  /** Reading a piece's text extends the current piece. */
  lemma {:induction false} SplitSkips(a: string, rest: string, d: nat, cur: string)
    requires Walk(a, d).Some? && !Straddles(a, rest)
    ensures SplitFrom(a + rest, d, cur) == SplitFrom(rest, Walk(a, d).value, cur + a)
    decreases |a|
  {
    if a == [] {
      assert a + rest == rest && cur + a == cur;
    } else {
      assert (a + rest)[1..] == a[1..] + rest;
      assert StartsArrow(a + rest) <==> StartsArrow(a);
      assert cur + [a[0]] + a[1..] == cur + a;
      var e := match a[0] case '[' => d + 1 case ']' => d - 1 case _ => d;
      SplitSkips(a[1..], rest, e, cur + [a[0]]);
    }
  }

  /** Every list of clean pieces is what its joined text splits into. */
  lemma {:induction false} SplitOfJoin(pieces: seq<string>)
    requires pieces != [] && forall p :: p in pieces ==> Clean(p)
    ensures SplitTop(Join(pieces, ARROW)) == Ok(pieces)
    decreases |pieces|
  {
    var p := pieces[0];
    assert p in pieces;
    if |pieces| == 1 {
      SplitSkips(p, [], 0, []);
      assert p + [] == p && [] + p == p && pieces == [p];
    } else {
      var rest := Join(pieces[1..], ARROW);
      SplitOfJoin(pieces[1..]);
      SplitSkips(p, ARROW + rest, 0, []);
      assert p + ARROW + rest == p + (ARROW + rest);
      assert (ARROW + rest)[2..] == rest && [] + p == p && [p] + pieces[1..] == pieces;
      assert StartsArrow(ARROW + rest);
    }
  }

  lemma {:induction false} SplitPieces(s: string, d: nat, cur: string)
    requires Walk(cur, 0) == Some(d) && (d == 0 ==> !Straddles(cur, s))
    ensures SplitFrom(s, d, cur).Ok? ==>
      var pieces := SplitFrom(s, d, cur).value;
      pieces != [] && Join(pieces, ARROW) == cur + s && forall p :: p in pieces ==> Clean(p)
    decreases |s|
  {
    if s == [] {
      assert cur + s == cur;
    } else if d == 0 && StartsArrow(s) {
      SplitPieces(s[2..], 0, []);
      assert cur + ARROW + s[2..] == cur + s by { assert s == ARROW + s[2..]; }
      assert [] + s[2..] == s[2..];
      var r := SplitFrom(s[2..], 0, []);
      if r.Ok? { assert ([cur] + r.value)[1..] == r.value; }
    } else {
      var c := [s[0]];
      assert cur + c + s[1..] == cur + s;
      if d > 0 || s[0] != ']' {
        WalkStep(cur, s[0], d);
        var e := match s[0] case '[' => d + 1 case ']' => d - 1 case _ => d;
        SplitPieces(s[1..], e, cur + c);
      }
    }
  }

  lemma WalkStep(cur: string, c: char, d: nat)
    requires Walk(cur, 0) == Some(d) && (d == 0 ==> !Straddles(cur, [c])) && (c == ']' ==> d > 0)
    ensures Walk(cur + [c], 0) == Some(match c case '[' => d + 1 case ']' => d - 1 case _ => d)
  {
    if d == 0 {
      WalkConcat(cur, [c], 0);
    } else {
      WalkInside(cur, c, 0);
    }
  }

  lemma {:induction false} WalkInside(cur: string, c: char, from: nat)
    requires Walk(cur, from).Some? && Walk(cur, from).value > 0
    ensures Walk(cur + [c], from) == Walk([c], Walk(cur, from).value)
    decreases |cur|
  {
    if cur == [] {
      assert cur + [c] == [c];
    } else {
      assert (cur + [c])[1..] == cur[1..] + [c];
      var e := match cur[0] case '[' => from + 1 case ']' => from - 1 case _ => from;
      WalkInside(cur[1..], c, e);
    }
  }

  lemma {:induction false} SplitSucceeds(s: string, d: nat, cur: string)
    ensures SplitFrom(s, d, cur).Ok? <==> NeverNegative(s, d) && d + Depth(s, |s|) == 0
    decreases |s|
  {
    assert Depth(s, 0) == 0;
    if s != [] {
      NeverNegativeTail(s, d);
      DepthTail(s, |s|);
      var t, e := s[1..], d + Depth(s, 1);
      if d == 0 && StartsArrow(s) {
        NeverNegativeTail(t, 0);
        DepthTail(t, |t|);
        assert t[1..] == s[2..];
        SplitSucceeds(s[2..], 0, []);
      } else if e >= 0 {
        SplitSucceeds(t, e, cur + [s[0]]);
      } else {
        assert e + Depth(t, 0) < 0;
      }
    }
  }

  /** The splitter succeeds exactly on balanced text, and its pieces are the one list of balanced
      arrow-free texts that the arrows join to the input. */
  lemma SplitExactly(dsl: string)
    ensures SplitTop(dsl).Ok? <==> Balanced(dsl)
    ensures SplitTop(dsl).Ok? ==>
      var pieces := SplitTop(dsl).value;
      && pieces != [] && Join(pieces, ARROW) == dsl
      && (forall p :: p in pieces ==> Balanced(p) && NoTopArrow(p))
      && (forall other: seq<string> ::
            (other != [] && Join(other, ARROW) == dsl && forall p :: p in other ==> Balanced(p) && NoTopArrow(p))
            ==> other == pieces)
  {
    SplitSucceeds(dsl, 0, []);
    SplitPieces(dsl, 0, []);
    assert [] + dsl == dsl;
    if SplitTop(dsl).Ok? {
      var pieces := SplitTop(dsl).value;
      forall p | p in pieces ensures Balanced(p) && NoTopArrow(p) { CleanMeaning(p); }
      forall other: seq<string> | other != [] && Join(other, ARROW) == dsl
        && (forall p :: p in other ==> Balanced(p) && NoTopArrow(p))
        ensures other == pieces
      {
        forall p | p in other ensures Clean(p) { CleanMeaning(p); }
        SplitOfJoin(other);
      }
    }
  }
}
