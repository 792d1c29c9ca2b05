/** The ${...} references of a step's configuration: finding them and baking values in. */
module Substitution {
  import opened Text
  import opened JsonValues

  type Values = map<string, string>

  // ---- References within one text. ----

  /** A text as literal characters and references "${raw}". */
  datatype Piece = Lit(c: char) | Ref(raw: string)

  function IndexOf(s: string, c: char): (i: int)
    ensures -1 <= i < |s| && (i >= 0 ==> s[i] == c && c !in s[..i]) && (i < 0 ==> c !in s)
  {
    if s == [] then -1
    else if s[0] == c then 0
    else var i := IndexOf(s[1..], c); if i < 0 then -1 else i + 1
  }

  /** Where the reference that starts the text closes; -1 when none starts here. */
  function RefEnd(s: string): int {
    if |s| > 2 && s[0] == '$' && s[1] == '{' then var j := IndexOf(s[2..], '}'); if j > 0 then j + 2 else -1
    else -1
  }

  /** The leftmost matches of "${" + one or more characters other than "}" + "}". */
  function Pieces(s: string): seq<Piece>
    decreases |s|
  {
    if s == [] then []
    else
      var end := RefEnd(s);
      if end > 0 then [Ref(s[2..end])] + Pieces(s[end + 1..]) else [Lit(s[0])] + Pieces(s[1..])
  }

  function Expr(p: Piece): string
    requires p.Ref?
  {
    TrimSpace(p.raw)
  }

  function Spell(p: Piece): string { match p case Lit(c) => [c] case Ref(raw) => "${" + raw + "}" }

  function Bake(p: Piece, vals: Values): string {
    if p.Ref? && Expr(p) in vals then vals[Expr(p)] else Spell(p)
  }

  function BakeAll(ps: seq<Piece>, vals: Values): string {
    if ps == [] then [] else Bake(ps[0], vals) + BakeAll(ps[1..], vals)
  }

  function ResolveText(s: string, vals: Values): string { BakeAll(Pieces(s), vals) }

  ghost predicate TextHasRef(s: string, r: string) {
    r != "" && exists i :: 0 <= i < |Pieces(s)| && Pieces(s)[i].Ref? && Expr(Pieces(s)[i]) == r
  }

  // ---- References within a JSON value. ----

  ghost predicate HasRef(v: Json, r: string) {
    match v
    case JStr(s) => TextHasRef(s, r)
    case JArr(items) => exists i :: 0 <= i < |items| && HasRef(items[i], r)
    case JObj(fields) => exists k :: k in fields && HasRef(fields[k], r)
    case _ => false
  }

  function ResolveValue(v: Json, vals: Values): Json {
    match v
    case JStr(s) => JStr(ResolveText(s, vals))
    case JArr(items) => JArr(seq(|items|, i requires 0 <= i < |items| => ResolveValue(items[i], vals)))
    case JObj(fields) => JObj(map k | k in fields :: ResolveValue(fields[k], vals))
    case _ => v
  }

  /** A throwaway copy of a step's configuration with the values baked in. */
  function ResolveWith(with: Object, vals: Values): Object { map k | k in with :: ResolveValue(with[k], vals) }

  ghost predicate WithHasRef(with: Object, r: string) { HasRef(JObj(with), r) }

  // ---- Collecting the references. ----

  predicate Unique(refs: seq<string>) { forall i, j :: 0 <= i < j < |refs| ==> refs[i] != refs[j] }

  method WalkText(s: string, refs0: seq<string>) returns (refs: seq<string>)
    requires Unique(refs0)
    ensures Unique(refs) && forall r :: r in refs <==> r in refs0 || TextHasRef(s, r)
  {
    refs := refs0;
    var ps := Pieces(s);
    for i := 0 to |ps|
      invariant Unique(refs)
      invariant forall r :: r in refs <==>
        r in refs0 || (r != "" && exists j :: 0 <= j < i && ps[j].Ref? && Expr(ps[j]) == r)
    {
      if ps[i].Ref? {
        var expr := Expr(ps[i]);
        if expr != "" && expr !in refs {
          refs := refs + [expr];
        }
      }
    }
  }

  method WalkValue(v: Json, refs0: seq<string>) returns (refs: seq<string>)
    requires Unique(refs0)
    ensures Unique(refs) && forall r :: r in refs <==> r in refs0 || HasRef(v, r)
    decreases v
  {
    refs := refs0;
    match v
    case JStr(s) =>
      refs := WalkText(s, refs0);
    case JArr(items) =>
      for i := 0 to |items|
        invariant Unique(refs)
        invariant forall r :: r in refs <==> r in refs0 || exists j :: 0 <= j < i && HasRef(items[j], r)
      {
        refs := WalkValue(items[i], refs);
      }
    case JObj(fields) =>
      var left := fields.Keys;
      while left != {}
        invariant left <= fields.Keys && Unique(refs)
        invariant forall r :: r in refs <==> r in refs0 || exists k :: k in fields && k !in left && HasRef(fields[k], r)
        decreases left
      {
        var k :| k in left;
        refs := WalkValue(fields[k], refs);
        left := left - {k};
      }
    case _ =>
  }

  ghost predicate Sorted(s: seq<string>) { forall i, j :: 0 <= i < j < |s| ==> AtMost(s[i], s[j]) }

  method InsertSorted(s: seq<string>, x: string) returns (r: seq<string>)
    requires Sorted(s)
    ensures Sorted(r) && multiset(r) == multiset(s) + multiset{x}
  {
    var i := |s|;
    while i > 0 && !AtMost(s[i - 1], x)
      invariant 0 <= i <= |s| && forall j :: i <= j < |s| ==> AtMost(x, s[j])
    {
      AtMostTotal(s[i - 1], x);
      i := i - 1;
    }
    r := s[..i] + [x] + s[i..];
    assert s == s[..i] + s[i..];
    forall j | 0 <= j < i ensures AtMost(s[j], x) {
      if j < i - 1 { AtMostTransitive(s[j], s[i - 1], x); }
    }
  }

  /** The references a step's configuration uses: each once, sorted. */
  method StepWithRefs(with: Object) returns (refs: seq<string>)
    ensures Sorted(refs) && Unique(refs) && forall r :: r in refs <==> WithHasRef(with, r)
  {
    var found := WalkValue(JObj(with), []);
    refs := [];
    for i := 0 to |found|
      invariant Sorted(refs) && multiset(refs) == multiset(found[..i])
    {
      assert found[..i + 1] == found[..i] + [found[i]];
      refs := InsertSorted(refs, found[i]);
    }
    assert found[..|found|] == found;
    forall r ensures r in refs <==> r in found { assert r in multiset(refs) <==> r in multiset(found); }
    UniqueByCount(found, refs);
  }

  lemma UniqueByCount(a: seq<string>, b: seq<string>)
    requires Unique(a) && multiset(a) == multiset(b)
    ensures Unique(b)
  {
    forall i, j | 0 <= i < j < |b| ensures b[i] != b[j] {
      if b[i] == b[j] {
        assert b == b[..i] + [b[i]] + b[i + 1..j] + [b[j]] + b[j + 1..];
        assert multiset(b)[b[i]] >= 2;
        UniqueCount(a, b[i]);
      }
    }
  }

  lemma {:induction false} UniqueCount(a: seq<string>, x: string)
    requires Unique(a)
    ensures multiset(a)[x] <= 1
  {
    if a != [] {
      assert a == [a[0]] + a[1..];
      UniqueCount(a[1..], x);
      forall j | 0 <= j < |a[1..]| ensures a[1..][j] != a[0] { assert a[1..][j] == a[j + 1]; }
    }
  }

  // ---- Only the reported references matter. ----

  predicate Agree(a: Values, b: Values, r: string) { (r in a <==> r in b) && (r in a ==> a[r] == b[r]) }

  lemma {:induction false} BakeSame(ps: seq<Piece>, a: Values, b: Values)
    requires forall i :: 0 <= i < |ps| && ps[i].Ref? ==> Agree(a, b, Expr(ps[i]))
    ensures BakeAll(ps, a) == BakeAll(ps, b)
  {
    if ps != [] {
      BakeSame(ps[1..], a, b);
    }
  }

  /** Values for anything but the reported references and the blank one change nothing. */
  lemma {:induction false} ResolvesByRefsOnly(v: Json, a: Values, b: Values)
    requires Agree(a, b, "") && forall r :: HasRef(v, r) ==> Agree(a, b, r)
    ensures ResolveValue(v, a) == ResolveValue(v, b)
    decreases v
  {
    match v
    case JStr(s) =>
      forall i | 0 <= i < |Pieces(s)| && Pieces(s)[i].Ref? ensures Agree(a, b, Expr(Pieces(s)[i])) {
        assert Expr(Pieces(s)[i]) != "" ==> HasRef(v, Expr(Pieces(s)[i]));
      }
      BakeSame(Pieces(s), a, b);
    case JArr(items) =>
      forall i | 0 <= i < |items| ensures ResolveValue(items[i], a) == ResolveValue(items[i], b) {
        forall r | HasRef(items[i], r) ensures Agree(a, b, r) { assert HasRef(v, r); }
        ResolvesByRefsOnly(items[i], a, b);
      }
    case JObj(fields) =>
      forall k | k in fields ensures ResolveValue(fields[k], a) == ResolveValue(fields[k], b) {
        forall r | HasRef(fields[k], r) ensures Agree(a, b, r) { assert HasRef(v, r); }
        ResolvesByRefsOnly(fields[k], a, b);
      }
    case _ =>
  }

  lemma RefEndSplits(s: string)
    requires RefEnd(s) > 0
    ensures var e := RefEnd(s); 2 < e < |s| && s == "${" + s[2..e] + "}" + s[e + 1..] && '}' !in s[2..e]
  {
    var j := IndexOf(s[2..], '}');
    assert s[2..][..j] == s[2..j + 2];
    assert s[..2] == "${" && s[j + 2] == '}';
  }

  lemma {:induction false} BakeNothing(s: string)
    ensures ResolveText(s, map[]) == s
    decreases |s|
  {
    if s != [] {
      var e := RefEnd(s);
      if e > 0 {
        RefEndSplits(s);
        BakeNothing(s[e + 1..]);
        assert Pieces(s)[1..] == Pieces(s[e + 1..]);
      } else {
        BakeNothing(s[1..]);
        assert Pieces(s)[1..] == Pieces(s[1..]);
      }
    }
  }

  /** With no values the configuration comes back unchanged. */
  lemma {:induction false} ResolveNothing(v: Json)
    ensures ResolveValue(v, map[]) == v
    decreases v
  {
    match v
    case JStr(s) => BakeNothing(s);
    case JArr(items) =>
      forall i | 0 <= i < |items| ensures ResolveValue(items[i], map[]) == items[i] { ResolveNothing(items[i]); }
    case JObj(fields) =>
      forall k | k in fields ensures ResolveValue(fields[k], map[]) == fields[k] { ResolveNothing(fields[k]); }
    case _ =>
  }

  // ---- The references of a text, in order. ----

  function Named(expr: string): seq<string> { if expr == "" then [] else [expr] }

  /** Every reference with something in its braces, in the order of the text. */
  function RefsOf(s: string): seq<string>
    decreases |s|
  {
    if s == [] then []
    else
      var end := RefEnd(s);
      if end > 0 then Named(TrimSpace(s[2..end])) + RefsOf(s[end + 1..]) else RefsOf(s[1..])
  }

  ghost predicate AmongPieces(ps: seq<Piece>, r: string) { exists i :: 0 <= i < |ps| && ps[i].Ref? && Expr(ps[i]) == r }

  lemma {:induction false} RefsOfText(s: string, r: string)
    ensures TextHasRef(s, r) <==> r in RefsOf(s)
    decreases |s|
  {
    assert TextHasRef(s, r) <==> r != "" && AmongPieces(Pieces(s), r);
    if s != [] {
      var e := RefEnd(s);
      var rest := if e > 0 then s[e + 1..] else s[1..];
      var p := if e > 0 then Ref(s[2..e]) else Lit(s[0]);
      RefsOfText(rest, r);
      assert TextHasRef(rest, r) <==> r != "" && AmongPieces(Pieces(rest), r);
      PieceAmong(p, Pieces(rest), r);
      assert Pieces(s) == [p] + Pieces(rest);
      assert RefsOf(s) == (if p.Ref? then Named(Expr(p)) else []) + RefsOf(rest);
    }
  }

  lemma PieceAmong(p: Piece, ps: seq<Piece>, r: string)
    ensures AmongPieces([p] + ps, r) <==> (p.Ref? && Expr(p) == r) || AmongPieces(ps, r)
  {
    var all := [p] + ps;
    assert all[0] == p && forall i :: 0 <= i < |ps| ==> all[i + 1] == ps[i];
    if i :| 0 <= i < |all| && all[i].Ref? && Expr(all[i]) == r {
      if i > 0 { assert ps[i - 1] == all[i]; }
    }
  }

  // ---- Values that cannot become part of a reference. ----

  /** Only blanks stand before the first closing brace. */
  predicate BlankClose(t: string) { t != [] && (t[0] == '}' || (IsSpace(t[0]) && BlankClose(t[1..]))) }

  /** Every opening "${" inside the value is closed there around nothing but blanks. */
  predicate NoOpenRef(v: string) {
    forall i :: 0 <= i < |v| - 1 && v[i] == '$' && v[i + 1] == '{' ==> BlankClose(v[i + 2..])
  }

  /** A value that neither holds, nor starts, nor completes a reference, and keeps its surroundings apart:
      it is not empty, does not end in "$", and a "{" at its start or behind a "$" inside it is closed
      around nothing but blanks. */
  predicate Harmless(v: string) {
    v != "" && v[|v| - 1] != '$' && (v[0] == '{' ==> BlankClose(v[1..])) && NoOpenRef(v)
  }

  predicate HarmlessValues(vals: Values) { forall r :: r in vals ==> Harmless(vals[r]) }

  /** The text cannot be continued into a reference. */
  predicate Quiet(v: string) { (v != "" ==> v[|v| - 1] != '$') && NoOpenRef(v) }

  lemma QuietTail(v: string, n: nat)
    requires Quiet(v) && n <= |v|
    ensures Quiet(v[n..])
  {
    var t := v[n..];
    forall i | 0 <= i < |t| - 1 && t[i] == '$' && t[i + 1] == '{' ensures BlankClose(t[i + 2..]) {
      assert v[n + i] == '$' && v[n + i + 1] == '{' && t[i + 2..] == v[n + i + 2..];
    }
  }

  predicate AllBlank(x: string) { forall c :: c in x ==> IsSpace(c) }

  lemma {:induction false} BlanksTrimAway(x: string)
    requires AllBlank(x)
    ensures TrimLeft(x) == ""
  {
    if x != "" {
      assert x[0] in x;
      BlanksTrimAway(x[1..]);
    }
  }

  lemma TrimsToNothing(x: string)
    ensures TrimSpace(x) == "" <==> AllBlank(x)
  {
    if AllBlank(x) {
      BlanksTrimAway(x);
    } else {
      TrimLeftResult(x);
      TrimRightResult(TrimLeft(x));
      var c :| c in x && !IsSpace(c);
      var i :| 0 <= i < |x| && x[i] == c;
      var left := TrimLeft(x);
      assert left[i - (|x| - |left|)] == c;
    }
  }

  /** The first closing brace of such a text, and the blanks before it. */
  lemma {:induction false} BlankCloseIndex(t: string, rest: string)
    requires BlankClose(t)
    ensures var j := IndexOf(t + rest, '}');
      0 <= j < |t| && t[j] == '}' && AllBlank(t[..j]) && (t + rest)[..j] == t[..j] && BlankClose(t + rest)
  {
    assert (t + rest)[0] == t[0] && (t + rest)[1..] == t[1..] + rest;
    if t[0] != '}' {
      BlankCloseIndex(t[1..], rest);
      var j := IndexOf(t[1..] + rest, '}');
      assert t[..j + 1] == [t[0]] + t[1..][..j] && (t + rest)[..j + 1] == [t[0]] + (t[1..] + rest)[..j];
    }
  }

  lemma {:induction false} BlanksThenClose(t: string, j: nat)
    requires j < |t| && t[j] == '}' && AllBlank(t[..j])
    ensures BlankClose(t)
  {
    if j > 0 {
      assert t[0] in t[..j];
      assert t[1..][..j - 1] == t[..j][1..];
      BlanksThenClose(t[1..], j - 1);
    }
  }

  lemma RefsAfterLit(s: string)
    requires s != [] && RefEnd(s) <= 0
    ensures RefsOf(s) == RefsOf(s[1..])
  {
  }

  /** "${" closed around blanks contributes no reference; j is where the braces close. */
  lemma BlankRefSkipped(s: string, t: string, rest: string) returns (j: nat)
    requires |s| >= 2 && s[0] == '$' && s[1] == '{' && s[2..] == t + rest && BlankClose(t)
    ensures j < |t| && t[j] == '}' && AllBlank(t[..j])
    ensures RefsOf(s) == if j == 0 then RefsOf(s[1..]) else RefsOf(s[j + 3..])
  {
    BlankCloseIndex(t, rest);
    j := IndexOf(s[2..], '}');
    if j > 0 {
      assert s[2..j + 2] == s[2..][..j];
      TrimsToNothing(t[..j]);
    }
  }

  /** A quiet text in front of another adds no reference and takes none away. */
  lemma {:induction false} QuietInFront(v: string, t: string)
    requires Quiet(v)
    ensures RefsOf(v + t) == RefsOf(t)
    decreases |v|
  {
    var s := v + t;
    if v == "" {
      assert s == t;
    } else {
      assert s[1..] == v[1..] + t;
      QuietTail(v, 1);
      if v[0] == '$' && v[1] == '{' {
        assert s[2..] == v[2..] + t;
        var j := BlankRefSkipped(s, v[2..], t);
        if j == 0 {
          QuietInFront(v[1..], t);
        } else {
          QuietTail(v, j + 3);
          assert s[j + 3..] == v[j + 3..] + t;
          QuietInFront(v[j + 3..], t);
        }
      } else {
        QuietInFront(v[1..], t);
      }
    }
  }

  /** What follows a literal "$" does not turn it into a reference. */
  predicate KeepsDollar(t: string) { t == "" || t[0] != '{' || '}' !in t || BlankClose(t[1..]) }

  lemma NoDollarQuiet(v: string)
    requires '$' !in v
    ensures Quiet(v)
  {
  }

  lemma BlankHead(t: string, j: nat)
    requires t != "" && t[0] == '{' && j < |t[1..]| && t[1..][j] == '}' && AllBlank(t[1..][..j])
    ensures RefsOf(t) == RefsOf(t[1..][j + 1..])
  {
    var head := t[..j + 2];
    assert t == head + t[j + 2..] && t[1..][j + 1..] == t[j + 2..];
    forall c | c in head ensures c != '$' {
      var i :| 0 <= i < |head| && head[i] == c;
      if 0 < i < j + 1 { assert t[1..][..j][i - 1] == c && c in t[1..][..j]; }
    }
    NoDollarQuiet(head);
    QuietInFront(head, t[j + 2..]);
  }

  lemma DollarInFront(t: string)
    requires KeepsDollar(t)
    ensures RefsOf(['$'] + t) == RefsOf(t)
  {
    var s := ['$'] + t;
    assert s[1..] == t;
    if t != "" && t[0] == '{' {
      assert s[2..] == t[1..];
      if BlankClose(t[1..]) {
        var body := t[1..];
        assert body + [] == body;
        var j := BlankRefSkipped(s, body, []);
        if j > 0 {
          assert s[j + 3..] == body[j + 1..];
          BlankHead(t, j);
        }
      } else {
        assert IndexOf(t[1..], '}') < 0;
        RefsAfterLit(s);
      }
    } else {
      RefsAfterLit(s);
    }
  }

  // ---- Exactly the references without a value remain. ----

  /** The references that get no value, in order. */
  function Unvalued(refs: seq<string>, vals: Values): seq<string> {
    if refs == [] then [] else (if refs[0] in vals then [] else [refs[0]]) + Unvalued(refs[1..], vals)
  }

  lemma {:induction false} UnvaluedMembers(refs: seq<string>, vals: Values, r: string)
    ensures r in Unvalued(refs, vals) <==> r in refs && r !in vals
  {
    if refs != [] { UnvaluedMembers(refs[1..], vals, r); }
  }

  lemma {:induction false} IndexInFront(raw: string, c: char, t: string)
    requires c !in raw
    ensures IndexOf(raw + [c] + t, c) == |raw|
  {
    var s := raw + [c] + t;
    if raw != [] {
      assert s[0] == raw[0] && raw[0] in raw && s[1..] == raw[1..] + [c] + t;
      IndexInFront(raw[1..], c, t);
    }
  }

  lemma RefFirst(s: string)
    requires RefEnd(s) > 0
    ensures var e := RefEnd(s);
      e < |s| && RefsOf(s) == Named(TrimSpace(s[2..e])) + RefsOf(s[e + 1..]) && Pieces(s) == [Ref(s[2..e])] + Pieces(s[e + 1..])
  {
    RefEndSplits(s);
  }

  lemma RefInFront(raw: string, t: string)
    requires raw != "" && '}' !in raw
    ensures var s := "${" + raw + "}" + t;
      RefsOf(s) == Named(TrimSpace(raw)) + RefsOf(t) && Pieces(s) == [Ref(raw)] + Pieces(t)
  {
    var s := "${" + raw + "}" + t;
    assert s[2..] == raw + ['}'] + t;
    IndexInFront(raw, '}', t);
    assert RefEnd(s) == |raw| + 2;
    RefFirst(s);
    assert s[2..|raw| + 2] == raw && s[|raw| + 3..] == t;
  }

  lemma {:induction false} NoCloseNoRef(s: string, vals: Values)
    requires '}' !in s
    ensures ResolveText(s, vals) == s
    decreases |s|
  {
    if s != [] {
      assert RefEnd(s) < 0;
      NoCloseNoRef(s[1..], vals);
      assert Pieces(s)[1..] == Pieces(s[1..]);
    }
  }

  lemma ResolveLit(s: string, vals: Values)
    requires s != [] && RefEnd(s) <= 0
    ensures ResolveText(s, vals) == [s[0]] + ResolveText(s[1..], vals)
  {
    assert Pieces(s)[1..] == Pieces(s[1..]);
  }

  lemma ResolveRef(s: string, vals: Values)
    requires RefEnd(s) > 0
    ensures var e := RefEnd(s);
      ResolveText(s, vals) == Bake(Ref(s[2..e]), vals) + ResolveText(s[e + 1..], vals)
  {
    assert Pieces(s)[1..] == Pieces(s[RefEnd(s) + 1..]);
  }

  lemma ValueKeepsDollar(v: string, rest: string)
    requires Harmless(v)
    ensures KeepsDollar(v + rest)
  {
    assert (v + rest)[0] == v[0] && (v + rest)[1..] == v[1..] + rest;
    if v[0] == '{' { BlankCloseIndex(v[1..], rest); }
  }

  lemma BraceKeepsDollar(t: string, vals: Values)
    requires t != "" && t[0] == '{' && RefEnd(t) <= 0 && ('}' in t[1..] ==> t[1] == '}')
    ensures KeepsDollar(ResolveText(t, vals))
  {
    ResolveLit(t, vals);
    var baked := ResolveText(t, vals);
    assert baked[1..] == ResolveText(t[1..], vals);
    if '}' in t[1..] { ResolveLit(t[1..], vals); } else { NoCloseNoRef(t[1..], vals); }
  }

  /** A literal "$" stays one when the text behind it is baked. */
  lemma DollarStaysLiteral(t: string, vals: Values)
    requires HarmlessValues(vals) && RefEnd(['$'] + t) <= 0
    ensures KeepsDollar(ResolveText(t, vals))
  {
    if t != "" && RefEnd(t) > 0 {
      ResolveRef(t, vals);
      var expr := TrimSpace(t[2..RefEnd(t)]);
      if expr in vals { ValueKeepsDollar(vals[expr], ResolveText(t[RefEnd(t) + 1..], vals)); }
    } else if t != "" {
      if t[0] == '{' {
        assert (['$'] + t)[2..] == t[1..];
        BraceKeepsDollar(t, vals);
      } else {
        ResolveLit(t, vals);
      }
    }
  }

  /** Baking in front of a text that is already baked: a reference. */
  lemma BakedRef(raw: string, baked: string, refs: seq<string>, vals: Values)
    requires HarmlessValues(vals) && raw != "" && '}' !in raw && RefsOf(baked) == Unvalued(refs, vals)
    ensures RefsOf(Bake(Ref(raw), vals) + baked) == Unvalued(Named(TrimSpace(raw)) + refs, vals)
  {
    var expr := TrimSpace(raw);
    UnvaluedNamed(expr, refs, vals);
    if expr in vals {
      QuietInFront(vals[expr], baked);
    } else {
      RefInFront(raw, baked);
    }
  }

  lemma UnvaluedNamed(expr: string, refs: seq<string>, vals: Values)
    ensures Unvalued(Named(expr) + refs, vals) == (if expr in vals then [] else Named(expr)) + Unvalued(refs, vals)
  {
    if expr == "" {
      assert Named(expr) + refs == refs;
    } else {
      assert (Named(expr) + refs)[1..] == refs;
    }
  }

  /** The same for a literal. */
  lemma BakedLit(s: string, vals: Values)
    requires HarmlessValues(vals) && s != "" && RefEnd(s) <= 0
    ensures RefsOf([s[0]] + ResolveText(s[1..], vals)) == RefsOf(ResolveText(s[1..], vals))
  {
    var rest := ResolveText(s[1..], vals);
    assert s == [s[0]] + s[1..] && ([s[0]] + rest)[1..] == rest;
    if s[0] == '$' {
      DollarStaysLiteral(s[1..], vals);
      DollarInFront(rest);
    } else {
      RefsAfterLit([s[0]] + rest);
    }
  }

  /** Baking harmless values leaves exactly the references without a value, in their order. */
  lemma {:induction false} RefsOfBaked(s: string, vals: Values)
    requires HarmlessValues(vals)
    ensures RefsOf(ResolveText(s, vals)) == Unvalued(RefsOf(s), vals)
    decreases |s|
  {
    if s == [] {
    } else if RefEnd(s) > 0 {
      var e := RefEnd(s);
      RefEndSplits(s);
      ResolveRef(s, vals);
      RefsOfBaked(s[e + 1..], vals);
      BakedRef(s[2..e], ResolveText(s[e + 1..], vals), RefsOf(s[e + 1..]), vals);
    } else {
      ResolveLit(s, vals);
      RefsOfBaked(s[1..], vals);
      BakedLit(s, vals);
    }
  }

  lemma TextResolvesExactly(s: string, vals: Values, r: string)
    requires HarmlessValues(vals)
    ensures TextHasRef(ResolveText(s, vals), r) <==> TextHasRef(s, r) && r !in vals
  {
    RefsOfBaked(s, vals);
    RefsOfText(s, r);
    RefsOfText(ResolveText(s, vals), r);
    UnvaluedMembers(RefsOf(s), vals, r);
  }

  /** With harmless values baking leaves exactly the references that got no value, at any depth. */
  lemma {:induction false} ResolvesExactly(v: Json, vals: Values, r: string)
    requires HarmlessValues(vals)
    ensures HasRef(ResolveValue(v, vals), r) <==> HasRef(v, r) && r !in vals
    decreases v
  {
    match v
    case JStr(s) => TextResolvesExactly(s, vals, r);
    case JArr(items) =>
      var out := ResolveValue(v, vals).items;
      forall i | 0 <= i < |items| ensures HasRef(out[i], r) <==> HasRef(items[i], r) && r !in vals {
        ResolvesExactly(items[i], vals, r);
      }
    case JObj(fields) =>
      var out := ResolveValue(v, vals).fields;
      forall k | k in fields ensures HasRef(out[k], r) <==> HasRef(fields[k], r) && r !in vals {
        ResolvesExactly(fields[k], vals, r);
      }
    case _ =>
  }

  /** Every reported reference supplied with a harmless value: no reference is left. */
  lemma SubstitutionIsComplete(with: Object, vals: Values)
    requires HarmlessValues(vals) && forall r :: WithHasRef(with, r) ==> r in vals
    ensures forall r :: !WithHasRef(ResolveWith(with, vals), r)
  {
    forall r ensures !WithHasRef(ResolveWith(with, vals), r) {
      ResolvesExactly(JObj(with), vals, r);
    }
  }

  // ---- Which values are harmless. ----

  /** A name that can stand between braces. */
  predicate Usable(a: string) { a != "" && Trimmed(a) && '}' !in a }

  /** Whatever the text, giving a the value v removes the references to a and changes no other. */
  ghost predicate FillsOnly(a: string, v: string) {
    forall s: string, r: string :: TextHasRef(ResolveText(s, map[a := v]), r) <==> TextHasRef(s, r) && r != a
  }

  /** At i stands a "${" that is closed later, around more than blanks. */
  predicate OpenAt(t: string, i: nat) {
    i + 1 < |t| && t[i] == '$' && t[i + 1] == '{' && '}' in t[i + 2..] && !BlankClose(t[i + 2..])
  }

  /** The length of the first match, or of the one character that is none. */
  function FirstPiece(t: string): (n: nat)
    requires t != []
    ensures 0 < n <= |t|
  {
    if RefEnd(t) > 0 then RefEndSplits(t); RefEnd(t) + 1 else 1
  }

  /** Whatever is around it, it shows as some reference. */
  lemma {:induction false} OpenRefShows(t: string, i: nat)
    requires OpenAt(t, i)
    ensures RefsOf(t) != []
    decreases |t|
  {
    if i == 0 { OpensAt(t); }
    var n := FirstPiece(t);
    if i < n && 1 < n {
      OpenInside(t, i);
    } else {
      OpenBehind(t, n, i);
      OpenRefShows(t[n..], i - n);
      RestShows(t);
    }
  }

  lemma OpenBehind(t: string, n: nat, i: nat)
    requires n <= i && OpenAt(t, i)
    ensures OpenAt(t[n..], i - n)
  {
    SlicesCompose(t, n, i - n + 2);
  }

  lemma SlicesCompose(t: string, a: nat, b: nat)
    requires a + b <= |t|
    ensures t[a..][b..] == t[a + b..]
  {
  }

  /** References after the first piece of a text are references of the text. */
  lemma RestShows(t: string)
    requires t != [] && RefsOf(t[FirstPiece(t)..]) != []
    ensures RefsOf(t) != []
  {
  }

  lemma OpenInside(t: string, i: nat)
    requires OpenAt(t, i) && i <= RefEnd(t) && RefEnd(t) > 0
    ensures RefsOf(t) != []
  {
    var e := RefEnd(t);
    RefEndSplits(t);
    var j := e - (i + 2);
    assert t[i + 2..][j] == '}' by { assert t[e] == '}'; }
    MoreThanBlanks(t[i + 2..], j);
    InsideRaw(t, i, e);
  }

  lemma MoreThanBlanks(x: string, j: nat)
    requires !BlankClose(x) && j < |x| && x[j] == '}'
    ensures !AllBlank(x[..j])
  {
    if AllBlank(x[..j]) { BlanksThenClose(x, j); }
  }

  lemma InsideRaw(t: string, i: nat, e: nat)
    requires RefEnd(t) == e && i + 2 <= e < |t| && !AllBlank(t[i + 2..][..e - (i + 2)])
    ensures RefsOf(t) != []
  {
    var c :| c in t[i + 2..][..e - (i + 2)] && !IsSpace(c);
    var k :| 0 <= k < e - (i + 2) && t[i + 2..][..e - (i + 2)][k] == c;
    assert t[2..e][i + k] == c;
    TrimsToNothing(t[2..e]);
  }

  /** A text that starts with such a "${" starts with a reference. */
  lemma OpensAt(t: string)
    requires OpenAt(t, 0)
    ensures RefEnd(t) > 0
  {
    assert t[2..][0] != '}';
  }

  lemma {:induction false} StillOpen(x: string, name: string)
    requires !BlankClose(x) && name != "" && !IsSpace(name[0]) && name[0] != '}'
    ensures !BlankClose(x + name)
  {
    if x == "" {
      assert x + name == name;
    } else {
      assert (x + name)[0] == x[0] && (x + name)[1..] == x[1..] + name;
      if x[0] != '}' && IsSpace(x[0]) { StillOpen(x[1..], name); }
    }
  }

  lemma {:induction false} BakeLits(s: string, vals: Values)
    requires '$' !in s
    ensures ResolveText(s, vals) == s
  {
    if s != [] {
      ResolveLit(s, vals);
      BakeLits(s[1..], vals);
    }
  }

  lemma RefAlone(a: string, post: string, v: string)
    requires Usable(a) && '$' !in post
    ensures var s := "${" + a + "}" + post; RefsOf(s) == [a] && ResolveText(s, map[a := v]) == v + post
  {
    RefInFront(a, post);
    TrimSpaceIdentity(a);
    NoDollarQuiet(post);
    QuietInFront(post, "");
    assert post + "" == post && RefsOf("") == [];
    BakeLits(post, map[a := v]);
    assert Pieces("${" + a + "}" + post)[1..] == Pieces(post);
  }

  lemma DollarAlone(s: string, vals: Values)
    requires s != "" && s[0] != '{'
    ensures RefsOf(['$'] + s) == RefsOf(s) && ResolveText(['$'] + s, vals) == ['$'] + ResolveText(s, vals)
  {
    assert (['$'] + s)[1..] == s;
    RefsAfterLit(['$'] + s);
    ResolveLit(['$'] + s, vals);
  }

  /** A reference to a behind nothing or a "$", and before plain text. */
  lemma FrameRefs(pre: string, a: string, post: string, v: string)
    requires (pre == "" || pre == "$") && Usable(a) && '$' !in post
    ensures var s := pre + ("${" + a + "}" + post);
      RefsOf(s) == [a] && ResolveText(s, map[a := v]) == pre + (v + post)
  {
    var inner := "${" + a + "}" + post;
    RefAlone(a, post, v);
    if pre == "$" {
      DollarAlone(inner, map[a := v]);
    } else {
      assert pre + inner == inner && pre + (v + post) == v + post;
    }
  }

  lemma OneLeak(a: string, v: string, s: string, r: string)
    requires TextHasRef(ResolveText(s, map[a := v]), r) && !(TextHasRef(s, r) && r != a)
    ensures !FillsOnly(a, v)
  {
  }

  /** A text whose only reference is to a, and which still has one once a is filled in. */
  lemma Leaks(pre: string, a: string, post: string, v: string, i: nat)
    requires (pre == "" || pre == "$") && Usable(a) && '$' !in post
    requires var t := pre + (v + post);
      i + 1 < |t| && t[i] == '$' && t[i + 1] == '{' && '}' in t[i + 2..] && !BlankClose(t[i + 2..])
    ensures !FillsOnly(a, v)
  {
    var s, t := pre + ("${" + a + "}" + post), pre + (v + post);
    FrameRefs(pre, a, post, v);
    OpenRefShows(t, i);
    var r := RefsOf(t)[0];
    RefsOfText(t, r);
    RefsOfText(s, r);
    OneLeak(a, v, s, r);
  }

  lemma HarmfulLeaks(a: string, v: string)
    requires Usable(a) && !Harmless(v)
    ensures !FillsOnly(a, v)
  {
    if v == "" {
      assert "$" + ("" + "{b}") == "${b}" && "${b}"[2..] == "b}";
      assert "b}"[1] == '}';
      Leaks("$", a, "{b}", v, 0);
    } else if v[|v| - 1] == '$' {
      var t := "" + (v + "{b}");
      assert t[|v| + 1..] == "b}" && "b}"[1] == '}';
      Leaks("", a, "{b}", v, |v| - 1);
    } else if v[0] == '{' && !BlankClose(v[1..]) {
      var t := "$" + (v + "b}");
      assert t[2..] == v[1..] + "b}" && t[|t| - 1] == '}' && t[2..][|t| - 3] == '}';
      StillOpen(v[1..], "b}");
      Leaks("$", a, "b}", v, 0);
    } else {
      var i :| 0 <= i < |v| - 1 && v[i] == '$' && v[i + 1] == '{' && !BlankClose(v[i + 2..]);
      var t := "" + (v + "b}");
      assert t[i + 2..] == v[i + 2..] + "b}" && t[i + 2..][|t| - i - 3] == '}';
      StillOpen(v[i + 2..], "b}");
      Leaks("", a, "b}", v, i);
    }
  }

  /** A value fills in its own reference and changes no other, in every text, exactly when it is harmless. */
  lemma HarmlessExactly(a: string, v: string)
    requires Usable(a)
    ensures FillsOnly(a, v) <==> Harmless(v)
  {
    if Harmless(v) {
      forall s: string, r: string ensures TextHasRef(ResolveText(s, map[a := v]), r) <==> TextHasRef(s, r) && r != a {
        TextResolvesExactly(s, map[a := v], r);
      }
    } else {
      HarmfulLeaks(a, v);
    }
  }

  /** Braces around nothing but blanks are no reference, so a value may hold them; one that leaves a brace
      open may not. */
  lemma BlankBracesAreHarmless(a: string)
    requires Usable(a)
    ensures FillsOnly(a, "a}b") && FillsOnly(a, "{ }") && !FillsOnly(a, "{b")
  {
    var blank, open := "{ }", "{b";
    assert blank[1..][1..] == "}" && BlankClose(blank[1..][1..]) && !BlankClose(open[1..]);
    assert Harmless("a}b") && Harmless(blank) && !Harmless(open);
    HarmlessExactly(a, "a}b");
    HarmlessExactly(a, blank);
    HarmlessExactly(a, open);
  }

  /** Text behind a "$" whose own reference is to a: it has no other, and baking joins the two. */
  lemma JoinedText(a: string, b: string)
    requires Usable(a) && Usable(b) && '$' !in b && a != b
    ensures var s := "$" + ("${" + a + "}" + ("{" + b + "}"));
      b !in RefsOf(s) && ResolveText(s, map[a := ""]) == "${" + b + "}" + ""
  {
    FrameRefs("$", a, "{" + b + "}", "");
    assert "$" + ("" + ("{" + b + "}")) == "${" + b + "}" + "";
  }

  /** An empty value, concretely: the text around it becomes a reference to b that was not there. */
  lemma EmptyValueMakesRef(a: string, b: string)
    requires Usable(a) && Usable(b) && '$' !in b && a != b
    ensures var s := "$" + ("${" + a + "}" + ("{" + b + "}"));
      !TextHasRef(s, b) && TextHasRef(ResolveText(s, map[a := ""]), b)
  {
    var s := "$" + ("${" + a + "}" + ("{" + b + "}"));
    JoinedText(a, b);
    RefsOfText(s, b);
    RefAlone(b, "", "");
    RefsOfText("${" + b + "}" + "", b);
  }
}
