/** The step form: per-action fields assembled into a step's `with` object, and a stored `with` object
    taken apart again for editing. */
module StepForm {
  import opened Options
  import opened Text
  import opened JsonValues
  import opened EnvTokens
  import opened StepFields

  // ---- Schemas. ----

  /** The tailored fields of an action; without them the free-form object is all there is, and required. */
  datatype Schema = Schema(fields: seq<Field>, known: bool)

  const CREATE_VOLUME := "forge/create-volume"
  const BUILD_IMAGE := "forge/build-image"
  const GIT_CLONE := "forge/git-clone"

  function Must(key: string): Field { Field(key, true, TextKind) }
  function May(key: string): Field { Field(key, false, TextKind) }

  function SchemaForAction(action: string): Schema {
    if action == "forge/run" then
      Schema([Must("image"), Must("run"), Field("env", false, EnvKind), May("runner_class"), Field("volumes", false, VolumeKind)], true)
    else if action == CREATE_VOLUME then
      Schema([May("name"), Field("size_mb", false, IntKind), May("medium"), May("mount_path")], true)
    else if action == BUILD_IMAGE then
      Schema([Field("destinations", true, ListKind), May("dockerfile"), May("context"), Field("build_args", false, EnvKind),
              May("target"), May("registry_secret"), Field("volumes", false, VolumeKind), Must("runner_class")], true)
    else if action == GIT_CLONE then
      Schema([Field("volumes", true, VolumeKind), May("path"), May("ref"), Field("depth", false, IntKind), May("run")], true)
    else if action == "tickets/create" then
      Schema([Must("title"), May("description"), May("priority"), May("status")], true)
    else if action == "tickets/update" then
      Schema([Must("id"), Must("title"), May("status"), May("priority"), May("description")], true)
    else if action == "tickets/delete" then Schema([Must("id")], true)
    else if action == "argo/sync" then Schema([Must("name"), May("revision"), May("outpost_id")], true)
    else if action == "chaos/run-experiment" then
      Schema([Must("outpost_id"), Must("experiment_type"), Must("target_app_ns"), Must("target_app_label"),
              May("target_app_kind"), Field("params", false, EnvKind)], true)
    else if action == "blueprints/backend" then Schema([May("workspace"), Field("ttl_secs", false, IntKind)], true)
    else if action == "workflows/trigger" then Schema([Must("pipeline"), Field("inputs", false, EnvKind)], true)
    else Schema([], false)
  }

  function Keys(fields: seq<Field>): set<string> { set i | 0 <= i < |fields| :: fields[i].key }

  predicate DistinctKeys(fields: seq<Field>) {
    forall i, j :: 0 <= i < j < |fields| ==> fields[i].key != fields[j].key
  }

  // ---- Assembling. ----

  /** The advanced field: empty, not a JSON object, or one. */
  datatype Advanced = Blank | Malformed | Extra(fields: Object)

  datatype Form = Form(texts: map<string, string>, advanced: Advanced)

  function ValueOf(texts: map<string, string>, key: string): string { if key in texts then texts[key] else "" }

  function AddRead(m: Object, key: string, r: Result<Option<Json>, FormError>): Result<Object, FormError> {
    match r
    case Err(e) => Err(e)
    case Ok(None) => Ok(m)
    case Ok(Some(v)) => Ok(m[key := v])
  }

  /** The values of the typed fields, or the first error among them. */
  function Typed(fields: seq<Field>, texts: map<string, string>): Result<Object, FormError> {
    if fields == [] then Ok(map[])
    else
      var f := fields[|fields| - 1];
      match Typed(fields[..|fields| - 1], texts)
      case Err(e) => Err(e)
      case Ok(m) => AddRead(m, f.key, ReadField(f, TrimSpace(ValueOf(texts, f.key))))
  }

  function ExtraOf(known: bool, advanced: Advanced): Result<Object, FormError> {
    match advanced
    case Blank => if known then Ok(map[]) else Err(AdvancedRequired)
    case Malformed => Err(AdvancedMalformed)
    case Extra(m) => Ok(m)
  }

  const REGISTRY_AUTH := "REGISTRY_AUTH"
  const BUILD_FIELDS := ["destinations", "dockerfile", "context", "build_args", "target"]
  const CHECKOUT_FIELDS := ["path", "ref", "depth"]

  function Listed(keys: seq<string>): set<string> { set k | k in keys }

  /** The entries of m under the listed keys. */
  function Picked(m: Object, keys: seq<string>): Object { map k | k in m && k in keys :: m[k] }

  function ObjectAt(m: Object, key: string): Object { if key in m && m[key].JObj? then m[key].fields else map[] }

  /** The build fields, if any, under `build`. */
  function WithBuild(m: Object): Object {
    var rest := m - Listed(BUILD_FIELDS);
    if Picked(m, BUILD_FIELDS) == map[] then rest else rest["build" := JObj(Picked(m, BUILD_FIELDS))]
  }

  /** The chosen registry secret among the secret references. */
  function NestSecret(m: Object): Object {
    if "registry_secret" in m && m["registry_secret"].JStr? then
      var bare := m - {"registry_secret"};
      if m["registry_secret"].s == "" then bare
      else bare["secret_refs" := JObj(ObjectAt(bare, "secret_refs")[REGISTRY_AUTH := JStr("secret:" + m["registry_secret"].s)])]
    else m
  }

  function NestBuild(m: Object): Object { NestSecret(WithBuild(m)) }

  function WithDefault(m: Object, key: string, v: string): Object { if key in m then m else m[key := JStr(v)] }

  /** The checkout fields under `checkout`, and a command that does nothing unless there is one. */
  function NestCheckout(m: Object): Object {
    WithDefault((m - Listed(CHECKOUT_FIELDS))["checkout" := JObj(Picked(m, CHECKOUT_FIELDS))], "run", "true")
  }

  /** What an action's own defaults and nesting make of the flat object. */
  function Finish(action: string, m: Object): Object {
    if action == CREATE_VOLUME then WithDefault(m, "workflow_id", RUN_ID_REF)
    else if action == BUILD_IMAGE then NestBuild(m)
    else if action == GIT_CLONE then NestCheckout(m)
    else m
  }

  function Build(action: string, form: Form): Result<Object, FormError> {
    var schema := SchemaForAction(action);
    match Typed(schema.fields, form.texts)
    case Err(e) => Err(e)
    case Ok(typed) =>
      match ExtraOf(schema.known, form.advanced)
      case Err(e) => Err(e)
      case Ok(extra) => Ok(Finish(action, extra + typed))
  }

  lemma {:induction false} FirstErrorWins(fields: seq<Field>, texts: map<string, string>, i: nat)
    requires i <= |fields| && Typed(fields[..i], texts).Err?
    ensures Typed(fields, texts) == Typed(fields[..i], texts)
    decreases |fields|
  {
    if i == |fields| {
      assert fields[..i] == fields;
    } else {
      var n := |fields| - 1;
      assert fields[..n][..i] == fields[..i];
      FirstErrorWins(fields[..n], texts, i);
    }
  }

  method MoveFields(w: Object, keys: seq<string>) returns (rest: Object, picked: Object)
    ensures rest == w - Listed(keys) && picked == Picked(w, keys)
  {
    rest, picked := w, map[];
    for i := 0 to |keys|
      invariant rest == w - Listed(keys[..i]) && picked == Picked(w, keys[..i])
    {
      var k := keys[i];
      assert keys[..i + 1] == keys[..i] + [k];
      assert Listed(keys[..i + 1]) == Listed(keys[..i]) + {k};
      if k in rest {
        picked := picked[k := rest[k]];
        rest := rest - {k};
      }
    }
    assert keys[..|keys|] == keys;
  }

  method NestForgeBuild(w: Object) returns (r: Object)
    ensures r == NestBuild(w)
  {
    var build;
    r, build := MoveFields(w, BUILD_FIELDS);
    if |build| > 0 {
      r := r["build" := JObj(build)];
    }
    if "registry_secret" in r && r["registry_secret"].JStr? {
      var rs := r["registry_secret"].s;
      r := r - {"registry_secret"};
      if rs != "" {
        var sr: Object := map[];
        if "secret_refs" in r && r["secret_refs"].JObj? {
          sr := r["secret_refs"].fields;
        }
        r := r["secret_refs" := JObj(sr[REGISTRY_AUTH := JStr("secret:" + rs)])];
      }
    }
  }

  method NestForgeCheckout(w: Object) returns (r: Object)
    ensures r == NestCheckout(w)
  {
    var checkout;
    r, checkout := MoveFields(w, CHECKOUT_FIELDS);
    r := r["checkout" := JObj(checkout)];
    if "run" !in r {
      r := r["run" := JStr("true")];
    }
  }

  /** The loop over the typed fields. */
  method ReadFields(fields: seq<Field>, texts: map<string, string>) returns (r: Result<Object, FormError>)
    ensures r == Typed(fields, texts)
  {
    var w: Object := map[];
    for i := 0 to |fields|
      invariant Typed(fields[..i], texts) == Ok(w)
    {
      assert fields[..i + 1][..i] == fields[..i];
      var f := fields[i];
      match ReadField(f, TrimSpace(ValueOf(texts, f.key)))
      case Err(e) =>
        FirstErrorWins(fields, texts, i + 1);
        return Err(e);
      case Ok(None) =>
      case Ok(Some(v)) => w := w[f.key := v];
    }
    assert fields[..|fields|] == fields;
    return Ok(w);
  }

  method BuildStepWith(action: string, form: Form) returns (r: Result<Object, FormError>)
    ensures r == Build(action, form)
  {
    var schema := SchemaForAction(action);
    var typed := ReadFields(schema.fields, form.texts);
    if typed.Err? {
      return typed;
    }
    var base: Object := map[];
    match form.advanced {
      case Blank =>
        if !schema.known {
          return Err(AdvancedRequired);
        }
      case Malformed => return Err(AdvancedMalformed);
      case Extra(m) => base := m;
    }
    var w := base + typed.value;
    if action == CREATE_VOLUME {
      if "workflow_id" !in w {
        w := w["workflow_id" := JStr(RUN_ID_REF)];
      }
    }
    if action == BUILD_IMAGE {
      w := NestForgeBuild(w);
    }
    if action == GIT_CLONE {
      w := NestForgeCheckout(w);
    }
    return Ok(w);
  }

  // ---- Taking apart. ----

  function TrimPrefix(s: string, prefix: string): string { if prefix <= s then s[|prefix|..] else s }

  /** The entries of the object at `key` lifted beside it, in its place. */
  function Lifted(w: Object, key: string): Object {
    if key in w && w[key].JObj? then (w + w[key].fields) - {key} else w
  }

  function LiftSecret(m: Object): Object {
    var refs := ObjectAt(m, "secret_refs");
    if REGISTRY_AUTH in refs && refs[REGISTRY_AUTH].JStr? then
      var lifted := m["registry_secret" := JStr(TrimPrefix(refs[REGISTRY_AUTH].s, "secret:"))];
      var rest := refs - {REGISTRY_AUTH};
      if rest == map[] then lifted - {"secret_refs"} else lifted["secret_refs" := JObj(rest)]
    else m
  }

  function Flatten(action: string, w: Object): Object {
    if action == GIT_CLONE then Lifted(w, "checkout")
    else if action == BUILD_IMAGE then LiftSecret(Lifted(w, "build"))
    else w
  }

  /** The texts of the fields that have a value. */
  function Texts(fields: seq<Field>, m: Object, p: Printing): map<string, string>
    requires Orderly(p)
  {
    if fields == [] then map[]
    else
      var f := fields[|fields| - 1];
      var before := Texts(fields[..|fields| - 1], m, p);
      if f.key in m then before[f.key := ShowField(f.kind, m[f.key], p)] else before
  }

  /** The entries no field shows, less a create-volume step's default scope. */
  function Leftover(action: string, fields: seq<Field>, m: Object): Object {
    var unshown := m - Keys(fields);
    if action == CREATE_VOLUME && "workflow_id" in m && m["workflow_id"] == JStr(RUN_ID_REF) then unshown - {"workflow_id"}
    else unshown
  }

  function FormOf(action: string, fields: seq<Field>, m: Object, p: Printing): Form
    requires Orderly(p)
  {
    var left := Leftover(action, fields, m);
    Form(Texts(fields, m, p), if left == map[] then Blank else Extra(left))
  }

  function Edit(action: string, w: Object, p: Printing): Form
    requires Orderly(p)
  {
    FormOf(action, SchemaForAction(action).fields, Flatten(action, w), p)
  }

  method LiftRegistrySecret(w: Object) returns (m: Object)
    ensures m == LiftSecret(w)
  {
    m := w;
    if "secret_refs" in m && m["secret_refs"].JObj? {
      var refs := m["secret_refs"].fields;
      if REGISTRY_AUTH in refs && refs[REGISTRY_AUTH].JStr? {
        m := m["registry_secret" := JStr(TrimPrefix(refs[REGISTRY_AUTH].s, "secret:"))];
        var rest := refs - {REGISTRY_AUTH};
        if |rest| > 0 {
          m := m["secret_refs" := JObj(rest)];
        } else {
          m := m - {"secret_refs"};
        }
      }
    }
  }

  method LiftObject(w: Object, key: string) returns (m: Object)
    ensures m == Lifted(w, key)
  {
    m := w;
    if key in m && m[key].JObj? {
      m := m + m[key].fields;
      m := m - {key};
    }
  }

  method FlattenStepWith(action: string, w: Object) returns (m: Object)
    ensures m == Flatten(action, w)
  {
    m := w;
    if action == GIT_CLONE {
      m := LiftObject(m, "checkout");
      return;
    }
    if action != BUILD_IMAGE {
      return;
    }
    m := LiftObject(m, "build");
    m := LiftRegistrySecret(m);
  }

  lemma KeysSnoc(fields: seq<Field>, i: nat)
    requires i < |fields|
    ensures Keys(fields[..i + 1]) == Keys(fields[..i]) + {fields[i].key}
  {
    var longer := fields[..i + 1];
    assert longer[i] == fields[i];
    forall k | k in Keys(fields[..i]) ensures k in Keys(longer) {
      var j :| 0 <= j < i && fields[..i][j].key == k;
      assert longer[j].key == k;
    }
  }

  /** The loop over the typed fields: their texts, and the keys they show. */
  method ShowFields(fields: seq<Field>, m: Object, p: Printing) returns (texts: map<string, string>, consumed: set<string>)
    requires Orderly(p)
    ensures texts == Texts(fields, m, p) && consumed == m.Keys * Keys(fields)
  {
    texts, consumed := map[], {};
    for i := 0 to |fields|
      invariant texts == Texts(fields[..i], m, p)
      invariant consumed == m.Keys * Keys(fields[..i])
    {
      assert fields[..i + 1][..i] == fields[..i];
      KeysSnoc(fields, i);
      var f := fields[i];
      if f.key in m {
        consumed := consumed + {f.key};
        texts := texts[f.key := ShowField(f.kind, m[f.key], p)];
      }
    }
    assert fields[..|fields|] == fields;
  }

  lemma RemovedShown(m: Object, keys: set<string>, more: set<string>)
    ensures m - (m.Keys * keys) == m - keys
    ensures m - (m.Keys * keys + more) == m - keys - more
  {
  }

  method FillForm(action: string, fields: seq<Field>, m: Object, p: Printing) returns (form: Form)
    requires Orderly(p)
    ensures form == FormOf(action, fields, m, p)
  {
    var texts, consumed := ShowFields(fields, m, p);
    RemovedShown(m, Keys(fields), {"workflow_id"});
    if action == CREATE_VOLUME && "workflow_id" in m && m["workflow_id"] == JStr(RUN_ID_REF) {
      consumed := consumed + {"workflow_id"};
    }
    var leftover := m - consumed;
    return Form(texts, if leftover == map[] then Blank else Extra(leftover));
  }

  method StepEditValues(action: string, w: Object, p: Printing) returns (form: Form)
    requires Orderly(p)
    ensures form == Edit(action, w, p)
  {
    var m := FlattenStepWith(action, w);
    form := FillForm(action, SchemaForAction(action).fields, m, p);
  }
}
