/** The typed fields of the step form: how each kind of value is read from text and shown as text. */
module StepFields {
  import opened Options
  import opened Int64
  import opened Text
  import opened Numerals
  import opened JsonValues
  import opened CommandLine
  import opened EnvTokens
  import opened EnvTrim

  datatype Kind = TextKind | IntKind | EnvKind | VolumeKind | ListKind

  datatype Field = Field(key: string, required: bool, kind: Kind)

  datatype FormError =
    | Required(key: string)
    | NotANumber(key: string)
    | BadEnv(key: string, error: CommandError)
    | AdvancedRequired
    | AdvancedMalformed

  /** What printing depends on beyond the value: the order of an environment's keys, which characters
      beyond ASCII are printable, and the text of values no field produces. */
  datatype Printing = Printing(order: set<string> -> seq<string>, table: char -> bool, json: Json -> string)

  /** Keys are listed once each, and white space beyond ASCII is not printable. */
  ghost predicate Orderly(p: Printing) {
    && (forall s: set<string>, k: string :: k in p.order(s) <==> k in s)
    && (forall s: set<string>, i: int, j: int :: 0 <= i < j < |p.order(s)| ==> p.order(s)[i] != p.order(s)[j])
    && (forall c: char :: c > '\U{7F}' && IsSpace(c) ==> !p.table(c))
  }

  /** The members of a set, each once. */
  ghost function ListOf(s: set<string>): (keys: seq<string>)
    ensures forall k :: k in keys <==> k in s
    ensures forall i, j :: 0 <= i < j < |keys| ==> keys[i] != keys[j]
  {
    if s == {} then [] else
      var k :| k in s;
      [k] + ListOf(s - {k})
  }

  /** Printing is possible. */
  lemma SomeOrderly()
    ensures exists p :: Orderly(p)
  {
    var p := Printing(s => ListOf(s), _ => false, _ => "");
    assert Orderly(p);
  }

  // ---- Lists. ----

  predicate Separator(c: char) { c == ',' || c == ' ' || c == '\t' || c == '\n' }

  /** The runs of characters between separators, the first of which continues `cur`. */
  function Words(s: string, cur: string): seq<string> {
    var here := if cur == "" then [] else [cur];
    if s == "" then here
    else if Separator(s[0]) then here + Words(s[1..], "")
    else Words(s[1..], cur + [s[0]])
  }

  /** The words, trimmed, without those that trim to nothing. */
  function NonBlank(words: seq<string>): seq<string> {
    if words == [] then []
    else
      var last := TrimSpace(words[|words| - 1]);
      NonBlank(words[..|words| - 1]) + if last == "" then [] else [last]
  }

  method SplitList(s: string) returns (out: seq<string>)
    ensures out == NonBlank(Words(s, ""))
  {
    var fields := Words(s, "");
    out := [];
    for i := 0 to |fields|
      invariant out == NonBlank(fields[..i])
    {
      assert fields[..i + 1][..i] == fields[..i];
      var f := TrimSpace(fields[i]);
      if f != "" {
        out := out + [f];
      }
    }
    assert fields[..|fields|] == fields;
  }

  predicate Unseparated(s: string) { forall c :: c in s ==> !Separator(c) }

  /** A list item: trimmed, not empty, without a separator. */
  predicate Item(s: string) { s != "" && Trimmed(s) && Unseparated(s) }

  lemma {:induction false} WordsPlain(s: string, cur: string)
    requires Unseparated(cur)
    ensures forall w :: w in Words(s, cur) ==> Unseparated(w)
    decreases |s|
  {
    if s != "" { WordsPlain(s[1..], if Separator(s[0]) then "" else cur + [s[0]]); }
  }

  lemma {:induction false} NonBlankItems(words: seq<string>)
    requires forall w :: w in words ==> Unseparated(w)
    ensures forall w :: w in NonBlank(words) ==> Item(w)
  {
    if words != [] {
      NonBlankItems(words[..|words| - 1]);
      var last := words[|words| - 1];
      assert last in words;
      TrimSpaceResult(last);
    }
  }

  lemma {:induction false} ItemsStay(items: seq<string>)
    requires forall w :: w in items ==> Item(w)
    ensures NonBlank(items) == items
  {
    if items != [] {
      var last := |items| - 1;
      assert items[last] in items && items == items[..last] + [items[last]];
      ItemsStay(items[..last]);
      TrimSpaceIdentity(items[last]);
    }
  }

  lemma {:induction false} WordsOfRun(w: string, rest: string, cur: string)
    requires Unseparated(w)
    ensures Words(w + rest, cur) == Words(rest, cur + w)
    decreases |w|
  {
    if w == "" {
      assert w + rest == rest && cur + w == cur;
    } else {
      assert w[0] in w && (w + rest)[1..] == w[1..] + rest && cur + [w[0]] + w[1..] == cur + w;
      WordsOfRun(w[1..], rest, cur + [w[0]]);
    }
  }

  lemma {:induction false} WordsOfJoin(items: seq<string>)
    requires items != [] && forall w :: w in items ==> Item(w)
    ensures Words(Join(items, ", "), "") == items
    ensures Trimmed(Join(items, ", ")) && Join(items, ", ") != ""
  {
    assert items[0] in items && "" + items[0] == items[0];
    if |items| == 1 {
      WordsOfRun(items[0], "", "");
      assert items[0] + "" == items[0];
    } else {
      var rest := Join(items[1..], ", ");
      WordsOfJoin(items[1..]);
      assert Join(items, ", ") == items[0] + (", " + rest);
      WordsOfRun(items[0], ", " + rest, "");
      assert (", " + rest)[1..] == " " + rest && (" " + rest)[1..] == rest;
      assert Words(" " + rest, "") == Words(rest, "");
      assert items == [items[0]] + items[1..];
    }
  }

  // ---- Shared volumes. ----

  const RUN_ID_REF := "${run_id}"
  const DEFAULT_VOLUME := "workspace"
  const DEFAULT_MOUNT := "/workspace"

  function Attached(name: string, mount: string): Json {
    JArr([JObj(map["workflow_id" := JStr(RUN_ID_REF), "name" := JStr(name), "mount_path" := JStr(mount), "workdir" := JBool(true)])])
  }

  function OrElse(s: string, otherwise: string): string { if s == "" then otherwise else s }

  /** The attachment a "name[:/mount]" text asks for. */
  function VolumeAttachWith(raw: string): Json {
    var (name, mount) := Cut(raw, ':');
    Attached(OrElse(TrimSpace(name), DEFAULT_VOLUME),
             OrElse(TrimSpace(match mount case Some(m) => m case None => ""), DEFAULT_MOUNT))
  }

  function TextOf(m: Object, key: string): string { if key in m && m[key].JStr? then m[key].s else "" }

  function VolumeAttachString(v: Json): string {
    if v.JArr? && |v.items| == 1 && v.items[0].JObj? then
      var m := v.items[0].fields;
      var name, mount := TextOf(m, "name"), TextOf(m, "mount_path");
      if name == "" then "" else if mount == "" || mount == DEFAULT_MOUNT then name else name + ":" + mount
    else ""
  }

  predicate VolumeName(s: string) { s != "" && Trimmed(s) && ':' !in s }
  predicate Solid(s: string) { s != "" && Trimmed(s) }

  lemma VolumeShape(raw: string) returns (name: string, mount: string)
    ensures VolumeAttachWith(raw) == Attached(name, mount) && VolumeName(name) && Solid(mount)
  {
    var (before, after) := Cut(raw, ':');
    var tail := match after case Some(m) => m case None => "";
    TrimSpaceResult(before);
    TrimSpaceResult(tail);
    name, mount := OrElse(TrimSpace(before), DEFAULT_VOLUME), OrElse(TrimSpace(tail), DEFAULT_MOUNT);
  }

  /** Showing an attachment and reading it back attaches the same volume in the same place. */
  lemma VolumeRoundTrip(name: string, mount: string)
    requires VolumeName(name) && Solid(mount)
    ensures VolumeAttachWith(TrimSpace(VolumeAttachString(Attached(name, mount)))) == Attached(name, mount)
    ensures TrimSpace(VolumeAttachString(Attached(name, mount))) != ""
  {
    var text := VolumeAttachString(Attached(name, mount));
    AttachedTexts(name, mount);
    TrimSpaceIdentity(name);
    TrimSpaceIdentity(mount);
    if mount == DEFAULT_MOUNT {
      CutAbsent(name, ':');
      assert TrimSpace("") == "";
    } else {
      CutJoined(name, ':', mount);
      assert text == name + [':'] + mount;
      TrimSpaceIdentity(text);
    }
  }

  lemma AttachedTexts(name: string, mount: string)
    ensures Attached(name, mount).items[0].JObj? && |Attached(name, mount).items| == 1
    ensures var m := Attached(name, mount).items[0].fields; TextOf(m, "name") == name && TextOf(m, "mount_path") == mount
  {
    assert "name" != "mount_path" && "name" != "workdir" && "mount_path" != "workdir" && "name" != "workflow_id" by {
      assert |"name"| != |"mount_path"| && |"name"| != |"workdir"| && |"mount_path"| != |"workdir"| && |"name"| != |"workflow_id"|;
    }
  }

  // ---- Reading and showing a field. ----

  function Strings(items: seq<string>): seq<Json> { seq(|items|, i requires 0 <= i < |items| => JStr(items[i])) }

  function EnvObject(env: Env): Json { JObj(map k | k in env :: JStr(env[k])) }

  /** The value a trimmed text gives a field, if the field is filled in. */
  function ReadField(f: Field, raw: string): Result<Option<Json>, FormError> {
    if raw == "" then (if f.required then Err(Required(f.key)) else Ok(None))
    else match f.kind
      case IntKind => (match ParseInt(raw)
        case Some(n) => if n < 0 then Err(NotANumber(f.key)) else Ok(Some(JNum(n)))
        case None => Err(NotANumber(f.key)))
      case EnvKind => (match ParseEnv(raw)
        case Ok(env) => Ok(Some(EnvObject(env)))
        case Err(e) => Err(BadEnv(f.key, e)))
      case VolumeKind => Ok(Some(VolumeAttachWith(raw)))
      case ListKind => Ok(Some(JArr(Strings(NonBlank(Words(raw, ""))))))
      case TextKind => Ok(Some(JStr(raw)))
  }

  function FormatScalar(v: Json, p: Printing): string {
    match v
    case JStr(s) => s
    case JBool(b) => if b then "true" else "false"
    case JNum(n) => FormatInt(n)
    case _ => p.json(v)
  }

  /** The strings of a list, in order; anything else in it is dropped. */
  function StringsOf(items: seq<Json>): seq<string> {
    if items == [] then []
    else StringsOf(items[..|items| - 1]) + if items[|items| - 1].JStr? then [items[|items| - 1].s] else []
  }

  method FormatList(v: Json) returns (r: string)
    ensures r == if v.JArr? then Join(StringsOf(v.items), ", ") else ""
  {
    if !v.JArr? {
      return "";
    }
    var parts: seq<string> := [];
    for i := 0 to |v.items|
      invariant parts == StringsOf(v.items[..i])
    {
      assert v.items[..i + 1][..i] == v.items[..i];
      if v.items[i].JStr? {
        parts := parts + [v.items[i].s];
      }
    }
    assert v.items[..|v.items|] == v.items;
    return Join(parts, ", ");
  }

  function Scalars(m: Object, p: Printing): Env { map k | k in m :: FormatScalar(m[k], p) }

  function ShowField(kind: Kind, v: Json, p: Printing): string
    requires Orderly(p)
  {
    match kind
    case EnvKind => if v.JObj? then FormatEnv(p.order(v.fields.Keys), Scalars(v.fields, p), p.table) else FormatScalar(v, p)
    case VolumeKind => VolumeAttachString(v)
    case ListKind => if v.JArr? then Join(StringsOf(v.items), ", ") else ""
    case _ => FormatScalar(v, p)
  }

  // ---- One field, there and back. ----

  predicate EnvShape(v: Json) { v.JObj? && v.fields != map[] && forall k :: k in v.fields ==> v.fields[k].JStr? }

  /** The values a field of a kind can hold. */
  ghost predicate Shape(kind: Kind, v: Json) {
    match kind
    case TextKind => v.JStr? && Solid(v.s)
    case IntKind => v.JNum? && v.n >= 0 && Representable(v.n)
    case EnvKind => EnvShape(v)
    case VolumeKind => exists name, mount :: VolumeName(name) && Solid(mount) && v == Attached(name, mount)
    case ListKind => exists items :: v == JArr(Strings(items)) && forall w :: w in items ==> Item(w)
  }

  /** An environment whose keys the tokenizer takes as they are. */
  predicate PlainEnv(v: Json) {
    v.JObj? && forall k :: k in v.fields ==> v.fields[k].JStr? && CleanKey(k)
  }

  /** What showing and reading must not lose: list items, characters of environment values, and white space
      at the edges of the shown text. */
  ghost predicate Keeps(kind: Kind, v: Json, p: Printing)
    requires Orderly(p)
  {
    match kind
    case EnvKind => v.JObj? && (
        var keys, m := p.order(v.fields.Keys), Scalars(v.fields, p);
        keys != [] && AllSurvive(keys, m, p.table) && EdgesHold(keys, m))
    case ListKind => v.JArr? && v.items != []
    case _ => true
  }

  /** Whatever a field reads has the shape of its kind. */
  lemma ReadShape(f: Field, text: string)
    requires var r := ReadField(f, TrimSpace(text)); r.Ok? && r.value.Some?
    ensures Shape(f.kind, ReadField(f, TrimSpace(text)).value.value)
  {
    TrimSpaceResult(text);
    var raw := TrimSpace(text);
    match f.kind
    case VolumeKind =>
      var name, mount := VolumeShape(raw);
    case ListKind =>
      WordsPlain(raw, "");
      NonBlankItems(Words(raw, ""));
    case EnvKind =>
      SomeAssignment(raw);
    case _ =>
  }

  /** Text that starts with something holds a token. */
  lemma {:induction false} LexInArg(s: string, st: Lexer)
    requires (!st.Between? || (s != "" && !Blank(s[0]))) && Lex(s, st).Ok?
    ensures Lex(s, st).value != []
    decreases |s|
  {
    if s == [] {
    } else if st.Quoted? {
      if s[0] == st.quote {
        LexInArg(s[1..], InArg(st.cur));
      } else if s[0] == '\\' && st.quote == '"' && |s| > 1 {
        LexInArg(s[2..], Quoted(st.cur + [s[1]], st.quote));
      } else {
        LexInArg(s[1..], Quoted(st.cur + [s[0]], st.quote));
      }
    } else if QuoteMark(s[0]) {
      LexInArg(s[1..], Quoted(st.Cur(), s[0]));
    } else if s[0] == '\\' && |s| > 1 {
      LexInArg(s[2..], InArg(st.Cur() + [s[1]]));
    } else if !Blank(s[0]) {
      LexInArg(s[1..], InArg(st.Cur() + [s[0]]));
    }
  }

  lemma SomeAssignment(raw: string)
    requires raw != "" && Trimmed(raw) && ParseEnv(raw).Ok?
    ensures ParseEnv(raw).value != map[]
  {
    var toks := Arguments(raw).value;
    LexInArg(raw, Between);
    var (k, v) := Cut(toks[0], '=');
    assert k in EnvOf(toks).value;
  }

  lemma StringsAreThose(items: seq<string>)
    ensures StringsOf(Strings(items)) == items
  {
    if items != [] {
      var n := |items| - 1;
      assert Strings(items)[..n] == Strings(items[..n]);
      StringsAreThose(items[..n]);
      assert items == items[..n] + [items[n]];
    }
  }

  /** A list is read back as itself exactly when it has an item. */
  lemma ListRoundTrip(f: Field, items: seq<string>, p: Printing)
    requires f.kind.ListKind? && Orderly(p) && forall w :: w in items ==> Item(w)
    ensures var v := JArr(Strings(items));
      ReadField(f, TrimSpace(ShowField(f.kind, v, p))) == Ok(Some(v)) <==> items != []
  {
    StringsAreThose(items);
    if items == [] {
      assert TrimSpace("") == "";
    } else {
      WordsOfJoin(items);
      ItemsStay(items);
      TrimSpaceIdentity(Join(items, ", "));
    }
  }

  lemma EnvTextReads(v: Json, p: Printing)
    requires Orderly(p) && EnvShape(v) && PlainEnv(v)
    ensures var text := TrimSpace(ShowField(EnvKind, v, p));
      text != "" && (ParseEnv(text) == Ok(Scalars(v.fields, p)) <==> Keeps(EnvKind, v, p))
  {
    var keys, m := p.order(v.fields.Keys), Scalars(v.fields, p);
    assert keys != [] by {
      var k :| k in v.fields;
      assert k in keys;
    }
    TrimmedRoundTripsExactly(keys, m, p.table);
    TrimmedNotEmpty(keys, m, p.table);
    assert Restricted(keys, m) == m;
  }

  /** An environment is read back as itself exactly when each of its values survives and trimming takes
      nothing off the shown text. */
  lemma EnvRoundTrip(f: Field, v: Json, p: Printing)
    requires f.kind.EnvKind? && Orderly(p) && EnvShape(v) && PlainEnv(v)
    ensures ReadField(f, TrimSpace(ShowField(f.kind, v, p))) == Ok(Some(v)) <==> Keeps(f.kind, v, p)
  {
    EnvTextReads(v, p);
    EnvObjectOfScalars(v, p);
    var back := ParseEnv(TrimSpace(ShowField(EnvKind, v, p)));
    if back.Ok? && EnvObject(back.value) == v { SameEnv(back.value, Scalars(v.fields, p)); }
  }

  lemma EnvObjectOfScalars(v: Json, p: Printing)
    requires EnvShape(v)
    ensures EnvObject(Scalars(v.fields, p)) == v
  {
    assert EnvObject(Scalars(v.fields, p)).fields == v.fields;
  }

  lemma SameEnv(a: Env, b: Env)
    requires EnvObject(a) == EnvObject(b)
    ensures a == b
  {
    assert a.Keys == EnvObject(a).fields.Keys == EnvObject(b).fields.Keys == b.Keys;
    forall k | k in a ensures a[k] == b[k] {
      assert EnvObject(a).fields[k] == EnvObject(b).fields[k];
    }
  }

  lemma IntTextTrimmed(n: nat)
    ensures Trimmed(FormatInt(n)) && FormatInt(n) != ""
  {
    var s := FormatNat(n);
    assert s[0] in s && s[|s| - 1] in s;
  }

  /** Any field's value, shown and read again, is the same value exactly when nothing is lost. */
  lemma FieldRoundTripsExactly(f: Field, v: Json, p: Printing)
    requires Orderly(p) && Shape(f.kind, v) && (f.kind.EnvKind? ==> PlainEnv(v))
    ensures ReadField(f, TrimSpace(ShowField(f.kind, v, p))) == Ok(Some(v)) <==> Keeps(f.kind, v, p)
  {
    match f.kind
    case TextKind => TrimSpaceIdentity(v.s);
    case IntKind =>
      IntTextTrimmed(v.n);
      TrimSpaceIdentity(FormatInt(v.n));
      IntRoundTrip(v.n);
    case EnvKind => EnvRoundTrip(f, v, p);
    case VolumeKind =>
      var name, mount :| VolumeName(name) && Solid(mount) && v == Attached(name, mount);
      VolumeRoundTrip(name, mount);
    case ListKind =>
      var items :| v == JArr(Strings(items)) && forall w :: w in items ==> Item(w);
      ListRoundTrip(f, items, p);
  }
}
