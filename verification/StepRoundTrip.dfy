/** Opening a stored step for editing and saving it unchanged gives the same step. */
module StepRoundTrip {
  import opened Options
  import opened Text
  import opened JsonValues
  import opened EnvTokens
  import opened EnvTrim
  import opened StepFields
  import opened StepForm

  // ---- Typed fields. ----

  /** Entries that the typed fields can have produced. */
  ghost predicate Shaped(fields: seq<Field>, m: Object) {
    && m.Keys <= Keys(fields)
    && forall i :: 0 <= i < |fields| ==>
         && (fields[i].required ==> fields[i].key in m)
         && (fields[i].key in m ==> Shape(fields[i].kind, m[fields[i].key]))
  }

  predicate PlainEnvs(fields: seq<Field>, m: Object) {
    forall i :: 0 <= i < |fields| && fields[i].kind.EnvKind? && fields[i].key in m ==> PlainEnv(m[fields[i].key])
  }

  /** No field loses anything when it is shown and read again. */
  ghost predicate Surviving(fields: seq<Field>, m: Object, p: Printing)
    requires Orderly(p)
  {
    forall i :: 0 <= i < |fields| && fields[i].key in m ==> Keeps(fields[i].kind, m[fields[i].key], p)
  }

  lemma ShapedSnoc(fields: seq<Field>, m: Object)
    requires fields != [] && DistinctKeys(fields) && Shaped(fields[..|fields| - 1], m)
    requires !fields[|fields| - 1].required
    ensures Shaped(fields, m)
  {
    var n := |fields| - 1;
    assert fields[..n + 1] == fields;
    KeysSnoc(fields, n);
    forall i | 0 <= i < n ensures fields[..n][i] == fields[i] {}
    assert fields[n].key !in Keys(fields[..n]);
  }

  lemma ShapedAdd(fields: seq<Field>, m: Object, v: Json)
    requires fields != [] && DistinctKeys(fields) && Shaped(fields[..|fields| - 1], m)
    requires Shape(fields[|fields| - 1].kind, v)
    ensures Shaped(fields, m[fields[|fields| - 1].key := v])
  {
    var n := |fields| - 1;
    assert fields[..n + 1] == fields;
    KeysSnoc(fields, n);
    forall i | 0 <= i < n ensures fields[..n][i] == fields[i] {}
  }

  lemma {:induction false} TypedShaped(fields: seq<Field>, texts: map<string, string>)
    requires DistinctKeys(fields) && Typed(fields, texts).Ok?
    ensures Shaped(fields, Typed(fields, texts).value)
  {
    if fields != [] {
      var n := |fields| - 1;
      var f := fields[n];
      TypedShaped(fields[..n], texts);
      var r := ReadField(f, TrimSpace(ValueOf(texts, f.key)));
      if r.value.Some? {
        ReadShape(f, ValueOf(texts, f.key));
        ShapedAdd(fields, Typed(fields[..n], texts).value, r.value.value);
      } else {
        ShapedSnoc(fields, Typed(fields[..n], texts).value);
      }
    }
  }

  /** `texts` shows m in the given fields. */
  ghost predicate Shows(texts: map<string, string>, fields: seq<Field>, m: Object, p: Printing)
    requires Orderly(p)
  {
    forall i :: 0 <= i < |fields| ==>
      ValueOf(texts, fields[i].key) == if fields[i].key in m then ShowField(fields[i].kind, m[fields[i].key], p) else ""
  }

  lemma {:induction false} TextsShow(fields: seq<Field>, m: Object, p: Printing)
    requires Orderly(p) && DistinctKeys(fields)
    ensures Shows(Texts(fields, m, p), fields, m, p) && Texts(fields, m, p).Keys <= Keys(fields)
  {
    if fields != [] {
      var n := |fields| - 1;
      TextsShow(fields[..n], m, p);
      assert fields[..n + 1] == fields;
      KeysSnoc(fields, n);
      forall i | 0 <= i < n ensures fields[..n][i] == fields[i] {}
    }
  }

  lemma WithoutLast(fields: seq<Field>, m: Object, p: Printing)
    requires Orderly(p) && fields != [] && DistinctKeys(fields) && Shaped(fields, m) && PlainEnvs(fields, m)
    ensures var n := |fields| - 1;
      var less := m - {fields[n].key};
      && Shaped(fields[..n], less) && PlainEnvs(fields[..n], less)
      && (Surviving(fields, m, p) <==> Surviving(fields[..n], less, p) && (fields[n].key in m ==> Keeps(fields[n].kind, m[fields[n].key], p)))
  {
    var n := |fields| - 1;
    var less := m - {fields[n].key};
    assert fields[..n + 1] == fields;
    KeysSnoc(fields, n);
    forall i | 0 <= i < n
      ensures fields[..n][i] == fields[i] && (fields[i].key in m <==> fields[i].key in less)
    {
      assert fields[i].key != fields[n].key;
    }
    if Surviving(fields[..n], less, p) && (fields[n].key in m ==> Keeps(fields[n].kind, m[fields[n].key], p)) {
      forall i | 0 <= i < |fields| && fields[i].key in m ensures Keeps(fields[i].kind, m[fields[i].key], p) {
        if i < n { assert fields[..n][i].key in less; }
      }
    }
  }

  /** Reading the shown fields gives the same entries exactly when every field keeps its value. */
  lemma {:induction false} TypedAgainExactly(fields: seq<Field>, m: Object, texts: map<string, string>, p: Printing)
    requires Orderly(p) && DistinctKeys(fields) && Shaped(fields, m) && PlainEnvs(fields, m)
    requires Shows(texts, fields, m, p)
    ensures Typed(fields, texts) == Ok(m) <==> Surviving(fields, m, p)
  {
    if fields == [] {
      assert m == map[];
    } else {
      var n := |fields| - 1;
      var f := fields[n];
      var less := m - {f.key};
      WithoutLast(fields, m, p);
      forall i | 0 <= i < n ensures fields[..n][i] == fields[i] && (fields[i].key in m <==> fields[i].key in less) {
        assert fields[i].key != f.key;
      }
      assert Shows(texts, fields[..n], less, p);
      TypedAgainExactly(fields[..n], less, texts, p);
      LastReadAgain(fields, m, texts);
      ReadAgain(fields, n, m, texts, p);
    }
  }

  lemma LastReadAgain(fields: seq<Field>, m: Object, texts: map<string, string>)
    requires fields != [] && DistinctKeys(fields)
    ensures var n := |fields| - 1;
      var f := fields[n];
      Typed(fields, texts) == Ok(m) <==>
        && Typed(fields[..n], texts) == Ok(m - {f.key})
        && ReadField(f, TrimSpace(ValueOf(texts, f.key))) == Ok(if f.key in m then Some(m[f.key]) else None)
  {
    var n := |fields| - 1;
    var before := Typed(fields[..n], texts);
    if before.Ok? {
      TypedShaped(fields[..n], texts);
      KeyIsNew(fields, n);
      AddReadExactly(before.value, fields[n].key, ReadField(fields[n], TrimSpace(ValueOf(texts, fields[n].key))), m);
    }
  }

  lemma KeyIsNew(fields: seq<Field>, n: nat)
    requires n < |fields| && DistinctKeys(fields)
    ensures fields[n].key !in Keys(fields[..n])
  {
  }

  lemma AddReadExactly(before: Object, key: string, r: Result<Option<Json>, FormError>, m: Object)
    requires key !in before
    ensures AddRead(before, key, r) == Ok(m) <==>
      before == m - {key} && r == Ok(if key in m then Some(m[key]) else None)
  {
    if key in m { assert (m - {key})[key := m[key]] == m; } else { assert m - {key} == m; }
    match r
    case Ok(Some(v)) => assert before[key := v] - {key} == before && before[key := v][key] == v;
    case _ =>
  }

  lemma ReadAgain(fields: seq<Field>, n: nat, m: Object, texts: map<string, string>, p: Printing)
    requires Orderly(p) && n < |fields| && Shaped(fields, m) && PlainEnvs(fields, m) && Shows(texts, fields, m, p)
    ensures var f := fields[n];
      ReadField(f, TrimSpace(ValueOf(texts, f.key))) == Ok(if f.key in m then Some(m[f.key]) else None) <==>
        (f.key in m ==> Keeps(f.kind, m[f.key], p))
  {
    var f := fields[n];
    if f.key in m {
      FieldRoundTripsExactly(f, m[f.key], p);
    } else {
      assert TrimSpace("") == "";
    }
  }

  // ---- Nesting and flattening. ----

  lemma KeysDiffer()
    ensures "build" != "registry_secret" && "build" != "secret_refs" && "registry_secret" != "secret_refs"
    ensures "build" !in BUILD_FIELDS && "registry_secret" !in BUILD_FIELDS && "secret_refs" !in BUILD_FIELDS
  {
    assert |"build"| != |"registry_secret"| && |"build"| != |"secret_refs"| && |"registry_secret"| != |"secret_refs"|;
  }

  lemma LiftOfWithBuild(m: Object)
    requires "build" !in m
    ensures Lifted(WithBuild(m), "build") == m
    ensures WithBuild(m) - {"build"} == m - Listed(BUILD_FIELDS)
  {
    KeysDiffer();
    var picked := Picked(m, BUILD_FIELDS);
    assert m == (m - Listed(BUILD_FIELDS)) + picked;
  }

  /** Removing or replacing another entry does not touch what is lifted. */
  lemma LiftApart(w: Object, key: string, gone: string, added: string, v: Json)
    requires key != gone && key != added
    requires key in w && w[key].JObj? ==> gone !in w[key].fields && added !in w[key].fields
    ensures Lifted(w - {gone}, key) == Lifted(w, key) - {gone}
    ensures Lifted((w - {gone})[added := v], key) == (Lifted(w, key) - {gone})[added := v]
  {
  }

  lemma FlattenBuild(m: Object)
    requires "build" !in m
    requires "registry_secret" in m ==> m["registry_secret"].JStr? && m["registry_secret"].s != ""
    requires "secret_refs" in m ==> Referable(m["secret_refs"])
    ensures LiftSecret(Lifted(NestBuild(m), "build")) == m
  {
    KeysDiffer();
    LiftOfWithBuild(m);
    var w := WithBuild(m);
    assert forall k :: k !in BUILD_FIELDS && k != "build" ==> (k in w <==> k in m) && (k in m ==> w[k] == m[k]);
    if "registry_secret" in m {
      var v := JObj(ObjectAt(m, "secret_refs")[REGISTRY_AUTH := JStr("secret:" + m["registry_secret"].s)]);
      assert ObjectAt(w - {"registry_secret"}, "secret_refs") == ObjectAt(m, "secret_refs");
      LiftApart(w, "build", "registry_secret", "secret_refs", v);
      SecretLifts(m);
    }
  }

  /** Secret references beside which a registry secret can be put, and taken out again. */
  predicate Referable(v: Json) { v.JObj? && v.fields != map[] && REGISTRY_AUTH !in v.fields }

  lemma SecretLifts(m: Object)
    requires "registry_secret" in m && m["registry_secret"].JStr? && m["registry_secret"].s != ""
    requires "secret_refs" in m ==> Referable(m["secret_refs"])
    ensures LiftSecret(NestSecret(m)) == m
  {
    KeysDiffer();
    var rs := m["registry_secret"].s;
    var refs := ObjectAt(m, "secret_refs");
    var n := NestSecret(m);
    assert ObjectAt(n, "secret_refs") == refs[REGISTRY_AUTH := JStr("secret:" + rs)];
    assert TrimPrefix("secret:" + rs, "secret:") == rs;
    assert refs[REGISTRY_AUTH := JStr("secret:" + rs)] - {REGISTRY_AUTH} == refs;
  }

  lemma FlattenCheckout(m: Object)
    requires "checkout" !in m
    ensures Lifted(NestCheckout(m), "checkout") == WithDefault(m, "run", "true")
    ensures NestCheckout(WithDefault(m, "run", "true")) == NestCheckout(m)
  {
    assert "run" !in CHECKOUT_FIELDS && "checkout" !in CHECKOUT_FIELDS && "run" != "checkout";
    var picked := Picked(m, CHECKOUT_FIELDS);
    assert m == (m - Listed(CHECKOUT_FIELDS)) + picked;
    assert Picked(WithDefault(m, "run", "true"), CHECKOUT_FIELDS) == picked;
  }

  /** What a build request holds: the build fields under `build` and nowhere else, the registry secret
      as one more secret reference, everything else where it was. */
  lemma BuildRequestShape(m: Object)
    ensures var w := NestBuild(m);
      && (forall k :: k in BUILD_FIELDS ==> k !in w)
      && (Picked(m, BUILD_FIELDS) != map[] ==> "build" in w && w["build"] == JObj(Picked(m, BUILD_FIELDS)))
      && (forall k :: k !in BUILD_FIELDS && k != "build" && k != "registry_secret" && k != "secret_refs" ==>
            (k in w <==> k in m) && (k in m ==> w[k] == m[k]))
      && ("registry_secret" in m && m["registry_secret"].JStr? ==> "registry_secret" !in w)
      && ("registry_secret" in m && m["registry_secret"].JStr? && m["registry_secret"].s != "" ==>
            ObjectAt(w, "secret_refs") == ObjectAt(m, "secret_refs")[REGISTRY_AUTH := JStr("secret:" + m["registry_secret"].s)])
  {
    KeysDiffer();
    var w := WithBuild(m);
    assert forall k :: k !in BUILD_FIELDS && k != "build" ==> (k in w <==> k in m) && (k in m ==> w[k] == m[k]);
    assert ObjectAt(w - {"registry_secret"}, "secret_refs") == ObjectAt(m, "secret_refs");
    assert "build" !in BUILD_FIELDS;
  }

  /** What a clone request holds: the checkout fields under `checkout` and nowhere else, and a command. */
  lemma CheckoutRequestShape(m: Object)
    ensures var w := NestCheckout(m);
      && (forall k :: k in CHECKOUT_FIELDS ==> k !in w)
      && "checkout" in w && w["checkout"] == JObj(Picked(m, CHECKOUT_FIELDS))
      && "run" in w && w["run"] == (if "run" in m then m["run"] else JStr("true"))
      && (forall k :: k !in CHECKOUT_FIELDS && k != "checkout" && k != "run" ==> (k in w <==> k in m) && (k in m ==> w[k] == m[k]))
  {
    assert "run" !in CHECKOUT_FIELDS && "checkout" !in CHECKOUT_FIELDS && "run" != "checkout";
  }

  /** The object that is finished for its action has the typed entries and, under other keys, the
      advanced ones. */
  lemma TypedFieldsWin(action: string, form: Form) returns (typed: Object, m: Object)
    requires SchemaForAction(action).known && Build(action, form).Ok?
    ensures Typed(SchemaForAction(action).fields, form.texts) == Ok(typed)
    ensures Build(action, form).value == Finish(action, m)
    ensures m.Keys == typed.Keys + AdvancedFields(form.advanced).Keys
    ensures forall k :: k in m ==> m[k] == if k in typed then typed[k] else AdvancedFields(form.advanced)[k]
  {
    BuildParts(action, form);
    typed := Typed(SchemaForAction(action).fields, form.texts).value;
    m := AdvancedFields(form.advanced) + typed;
  }

  /** Where a finished object holds the value of a typed field. */
  function Placed(action: string, w: Object, key: string): Option<Json> {
    var at :=
      if action == BUILD_IMAGE && key in BUILD_FIELDS then ObjectAt(w, "build")
      else if action == BUILD_IMAGE && key == "registry_secret" then LiftSecret(w)
      else if action == GIT_CLONE && key in CHECKOUT_FIELDS then ObjectAt(w, "checkout")
      else w;
    if key in at then Some(at[key]) else None
  }

  lemma BuildPlaced(m: Object, key: string)
    requires key in m && key != "build" && key != "secret_refs"
    requires key == "registry_secret" ==> m[key].JStr? && m[key].s != ""
    ensures Placed(BUILD_IMAGE, NestBuild(m), key) == Some(m[key])
  {
    KeysDiffer();
    BuildRequestShape(m);
    if key in BUILD_FIELDS {
      assert key in Picked(m, BUILD_FIELDS);
    } else if key == "registry_secret" {
      assert ObjectAt(NestBuild(m), "secret_refs")[REGISTRY_AUTH] == JStr("secret:" + m[key].s);
      assert TrimPrefix("secret:" + m[key].s, "secret:") == m[key].s;
    }
  }

  lemma CheckoutPlaced(m: Object, key: string)
    requires key in m && key != "checkout"
    ensures Placed(GIT_CLONE, NestCheckout(m), key) == Some(m[key])
  {
    CheckoutRequestShape(m);
  }

  lemma OtherPlaced(action: string, m: Object, key: string)
    requires key in m && action != BUILD_IMAGE && action != GIT_CLONE
    ensures Placed(action, Finish(action, m), key) == Some(m[key])
  {
  }

  lemma BuildFieldFacts(typed: Object, key: string)
    requires Shaped(SchemaForAction(BUILD_IMAGE).fields, typed) && key in typed
    ensures key != "build" && key != "secret_refs"
    ensures key == "registry_secret" ==> typed[key].JStr? && typed[key].s != ""
  {
    BuildSchema();
    if key == "registry_secret" { assert SchemaForAction(BUILD_IMAGE).fields[5].key in typed; }
  }

  lemma CheckoutFieldFacts(typed: Object, key: string)
    requires Shaped(SchemaForAction(GIT_CLONE).fields, typed) && key in typed
    ensures key != "checkout"
  {
    CheckoutSchema();
  }

  /** Whatever the advanced object says, every filled field's value is in the step, in its place. */
  lemma TypedFieldsPlaced(action: string, form: Form, key: string)
    requires SchemaForAction(action).known && Build(action, form).Ok?
    requires Typed(SchemaForAction(action).fields, form.texts).Ok?
    requires key in Typed(SchemaForAction(action).fields, form.texts).value
    ensures Placed(action, Build(action, form).value, key) == Some(Typed(SchemaForAction(action).fields, form.texts).value[key])
  {
    var typed, m := TypedFieldsWin(action, form);
    SchemasDistinct(action);
    TypedShaped(SchemaForAction(action).fields, form.texts);
    if action == BUILD_IMAGE {
      BuildFieldFacts(typed, key);
      BuildPlaced(m, key);
    } else if action == GIT_CLONE {
      CheckoutFieldFacts(typed, key);
      CheckoutPlaced(m, key);
    } else {
      OtherPlaced(action, m, key);
    }
  }

  // ---- The schemas. ----

  predicate NoEnvOrList(fields: seq<Field>) {
    forall i :: 0 <= i < |fields| ==> !fields[i].kind.EnvKind? && !fields[i].kind.ListKind?
  }

  lemma RunDistinct()
    ensures DistinctKeys(SchemaForAction("forge/run").fields)
  {
  }

  lemma ExperimentDistinct()
    ensures DistinctKeys(SchemaForAction("chaos/run-experiment").fields)
  {
  }

  lemma TicketDistinct()
    ensures DistinctKeys(SchemaForAction("tickets/update").fields) && DistinctKeys(SchemaForAction("tickets/create").fields)
  {
  }

  lemma SchemasDistinct(action: string)
    ensures DistinctKeys(SchemaForAction(action).fields)
  {
    RunDistinct();
    ExperimentDistinct();
    TicketDistinct();
    BuildSchema();
    CheckoutSchema();
    VolumeSchema();
  }

  lemma BuildSchema()
    ensures var fields := SchemaForAction(BUILD_IMAGE).fields;
      && |fields| == 8 && fields[5] == May("registry_secret")
      && "build" !in Keys(fields) && "secret_refs" !in Keys(fields) && DistinctKeys(fields)
  {
  }

  lemma CheckoutSchema()
    ensures var fields := SchemaForAction(GIT_CLONE).fields;
      && |fields| == 5 && fields[4] == May("run") && "checkout" !in Keys(fields) && NoEnvOrList(fields) && DistinctKeys(fields)
  {
  }

  lemma VolumeSchema()
    ensures var fields := SchemaForAction(CREATE_VOLUME).fields; "workflow_id" !in Keys(fields) && NoEnvOrList(fields) && DistinctKeys(fields)
  {
  }

  // ---- Editing and saving. ----

  /** Advanced entries that no typed field and no nested object of the action is about. */
  predicate Apart(action: string, extra: Object) {
    && (forall f :: f in SchemaForAction(action).fields ==> f.key !in extra)
    && (action == BUILD_IMAGE ==> "build" !in extra && ("secret_refs" in extra ==> Referable(extra["secret_refs"])))
    && (action == GIT_CLONE ==> "checkout" !in extra)
  }

  lemma ApartFromKeys(action: string, extra: Object, typed: Object)
    requires Apart(action, extra) && typed.Keys <= Keys(SchemaForAction(action).fields)
    ensures extra.Keys !! Keys(SchemaForAction(action).fields) && extra.Keys !! typed.Keys
  {
    var fields := SchemaForAction(action).fields;
    forall i | 0 <= i < |fields| ensures fields[i].key !in extra {
      assert fields[i] in fields;
    }
  }

  /** What the edit form shows in an action's typed fields. */
  function Filled(action: string, typed: Object): Object {
    if action == GIT_CLONE then WithDefault(typed, "run", "true") else typed
  }

  lemma UnionParts(extra: Object, typed: Object, keys: set<string>)
    requires extra.Keys !! keys && typed.Keys <= keys
    ensures (extra + typed) - keys == extra
    ensures forall k :: k in keys ==> (k in extra + typed <==> k in typed) && (k in typed ==> (extra + typed)[k] == typed[k])
  {
  }

  /** The entries left for the advanced field are the advanced ones, up to a default that comes back. */
  lemma EditedParts(action: string, extra: Object, typed: Object)
    requires SchemaForAction(action).known && Apart(action, extra) && Shaped(SchemaForAction(action).fields, typed)
    ensures var fields, w := SchemaForAction(action).fields, Finish(action, extra + typed);
      var m := Flatten(action, w);
      var left, filled := Leftover(action, fields, m), Filled(action, typed);
      && left.Keys !! Keys(fields) && filled.Keys <= Keys(fields)
      && (forall k :: k in Keys(fields) ==> (k in m <==> k in filled) && (k in filled ==> m[k] == filled[k]))
      && Finish(action, left + filled) == w
      && (action != CREATE_VOLUME ==> left == extra)
  {
    ApartFromKeys(action, extra, typed);
    var fields := SchemaForAction(action).fields;
    if action == BUILD_IMAGE {
      BuildEdited(extra, typed);
    } else if action == GIT_CLONE {
      CheckoutEdited(extra, typed);
    } else if action == CREATE_VOLUME {
      VolumeEdited(extra, typed);
    } else {
      UnionParts(extra, typed, Keys(fields));
    }
  }

  lemma BuildEdited(extra: Object, typed: Object)
    requires Apart(BUILD_IMAGE, extra) && Shaped(SchemaForAction(BUILD_IMAGE).fields, typed)
    ensures LiftSecret(Lifted(NestBuild(extra + typed), "build")) == extra + typed
    ensures (extra + typed) - Keys(SchemaForAction(BUILD_IMAGE).fields) == extra
  {
    BuildSchema();
    ApartFromKeys(BUILD_IMAGE, extra, typed);
    var fields := SchemaForAction(BUILD_IMAGE).fields;
    UnionParts(extra, typed, Keys(fields));
    assert fields[5].key in Keys(fields);
    assert "registry_secret" in typed ==> Shape(fields[5].kind, typed[fields[5].key]);
    FlattenBuild(extra + typed);
  }

  lemma CheckoutEdited(extra: Object, typed: Object)
    requires Apart(GIT_CLONE, extra) && Shaped(SchemaForAction(GIT_CLONE).fields, typed)
    ensures var filled := WithDefault(typed, "run", "true");
      && Lifted(NestCheckout(extra + typed), "checkout") == extra + filled
      && NestCheckout(extra + filled) == NestCheckout(extra + typed)
      && filled.Keys <= Keys(SchemaForAction(GIT_CLONE).fields)
      && (extra + filled) - Keys(SchemaForAction(GIT_CLONE).fields) == extra
  {
    CheckoutSchema();
    ApartFromKeys(GIT_CLONE, extra, typed);
    var fields := SchemaForAction(GIT_CLONE).fields;
    assert fields[4].key in Keys(fields);
    CheckoutRebuilt(extra, typed, Keys(fields));
  }

  lemma CheckoutRebuilt(extra: Object, typed: Object, keys: set<string>)
    requires extra.Keys !! keys && typed.Keys <= keys && "run" in keys && "checkout" !in extra && "checkout" !in keys
    ensures var filled := WithDefault(typed, "run", "true");
      && Lifted(NestCheckout(extra + typed), "checkout") == extra + filled
      && NestCheckout(extra + filled) == NestCheckout(extra + typed)
      && filled.Keys <= keys && (extra + filled) - keys == extra
  {
    FlattenCheckout(extra + typed);
    var filled := WithDefault(typed, "run", "true");
    assert WithDefault(extra + typed, "run", "true") == extra + filled;
    UnionParts(extra, filled, keys);
  }

  lemma VolumeEdited(extra: Object, typed: Object)
    requires Apart(CREATE_VOLUME, extra) && Shaped(SchemaForAction(CREATE_VOLUME).fields, typed)
    ensures var fields, w := SchemaForAction(CREATE_VOLUME).fields, WithDefault(extra + typed, "workflow_id", RUN_ID_REF);
      var left := Leftover(CREATE_VOLUME, fields, w);
      && left.Keys !! Keys(fields)
      && (forall k :: k in Keys(fields) ==> (k in w <==> k in typed) && (k in typed ==> w[k] == typed[k]))
      && WithDefault(left + typed, "workflow_id", RUN_ID_REF) == w
  {
    VolumeSchema();
    ApartFromKeys(CREATE_VOLUME, extra, typed);
    var fields := SchemaForAction(CREATE_VOLUME).fields;
    UnionParts(extra, typed, Keys(fields));
  }

  lemma FilledShaped(action: string, typed: Object, p: Printing)
    requires Orderly(p)
    requires var fields := SchemaForAction(action).fields; Shaped(fields, typed) && PlainEnvs(fields, typed)
    ensures var fields, filled := SchemaForAction(action).fields, Filled(action, typed);
      Shaped(fields, filled) && PlainEnvs(fields, filled) && (Surviving(fields, typed, p) <==> Surviving(fields, filled, p))
  {
    var fields := SchemaForAction(action).fields;
    if action == GIT_CLONE {
      CheckoutSchema();
      SchemasDistinct(action);
      assert fields[4].key in Keys(fields);
      assert Solid("true");
    }
  }

  /** Two sets of typed values that make the same step show the same in the edit form. */
  lemma SameFilled(action: string, extra: Object, typed: Object, again: Object)
    requires SchemaForAction(action).known && Apart(action, extra)
    requires Shaped(SchemaForAction(action).fields, typed) && Shaped(SchemaForAction(action).fields, again)
    requires Finish(action, extra + typed) == Finish(action, extra + again)
    ensures Filled(action, typed) == Filled(action, again)
  {
    EditedParts(action, extra, typed);
    EditedParts(action, extra, again);
    var a, b := Filled(action, typed), Filled(action, again);
    var keys := Keys(SchemaForAction(action).fields);
    assert forall k :: k in keys ==> (k in a <==> k in b);
    assert a.Keys == b.Keys;
  }

  /** Reading the shown texts beside the leftover makes the step again exactly when they read as shown. */
  lemma SavedAgain(action: string, extra: Object, typed: Object, texts: map<string, string>, p: Printing)
    requires Orderly(p) && SchemaForAction(action).known && Apart(action, extra)
    requires var fields := SchemaForAction(action).fields;
      && Shaped(fields, typed) && PlainEnvs(fields, typed) && Shows(texts, fields, Filled(action, typed), p)
    ensures var fields, w := SchemaForAction(action).fields, Finish(action, extra + typed);
      var left, again := Leftover(action, fields, Flatten(action, w)), Typed(fields, texts);
      (again.Ok? && Finish(action, left + again.value) == w) <==> again == Ok(Filled(action, typed))
  {
    var fields, w := SchemaForAction(action).fields, Finish(action, extra + typed);
    var again := Typed(fields, texts);
    SchemasDistinct(action);
    EditedParts(action, extra, typed);
    FilledShaped(action, typed, p);
    TypedAgainExactly(fields, Filled(action, typed), texts, p);
    if action == CREATE_VOLUME {
      VolumeSchema();
    } else if action == GIT_CLONE {
      CheckoutSchema();
    } else if again.Ok? && Finish(action, extra + again.value) == w {
      TypedShaped(fields, texts);
      SameFilled(action, extra, typed, again.value);
    }
  }

  function AdvancedFields(a: Advanced): Object { if a.Extra? then a.fields else map[] }

  lemma BuildParts(action: string, form: Form)
    requires SchemaForAction(action).known && Build(action, form).Ok?
    ensures var typed := Typed(SchemaForAction(action).fields, form.texts);
      typed.Ok? && Build(action, form).value == Finish(action, AdvancedFields(form.advanced) + typed.value)
  {
  }

  lemma BuildOfEdit(action: string, w: Object, p: Printing)
    requires Orderly(p) && SchemaForAction(action).known
    ensures var fields, m := SchemaForAction(action).fields, Flatten(action, w);
      var again := Typed(fields, Texts(fields, m, p));
      Build(action, Edit(action, w, p)) ==
        if again.Ok? then Ok(Finish(action, Leftover(action, fields, m) + again.value)) else again
  {
  }

  /** The form's texts show the typed values of the step being edited. */
  lemma EditShows(action: string, extra: Object, typed: Object, p: Printing)
    requires Orderly(p) && SchemaForAction(action).known && Apart(action, extra)
    requires Shaped(SchemaForAction(action).fields, typed)
    ensures var fields := SchemaForAction(action).fields;
      Shows(Texts(fields, Flatten(action, Finish(action, extra + typed)), p), fields, Filled(action, typed), p)
  {
    SchemasDistinct(action);
    EditedParts(action, extra, typed);
    TextsShow(SchemaForAction(action).fields, Flatten(action, Finish(action, extra + typed)), p);
  }

  // ---- Advanced entries under the key of a field that was left empty count as that field's value. ----

  /** The values under the keys of the action's fields, typed or advanced. */
  function FieldValues(action: string, form: Form): Object
    requires Typed(SchemaForAction(action).fields, form.texts).Ok?
  {
    var fields := SchemaForAction(action).fields;
    var all := AdvancedFields(form.advanced) + Typed(fields, form.texts).value;
    map k | k in all && k in Keys(fields) :: all[k]
  }

  /** The advanced entries under other keys. */
  function Beside(action: string, form: Form): Object { AdvancedFields(form.advanced) - Keys(SchemaForAction(action).fields) }

  /** Advanced entries that count as a field's value have its shape. */
  ghost predicate WellShaped(action: string, form: Form)
    requires Typed(SchemaForAction(action).fields, form.texts).Ok?
  {
    var extra, typed := AdvancedFields(form.advanced), Typed(SchemaForAction(action).fields, form.texts).value;
    forall f :: f in SchemaForAction(action).fields && f.key in extra && f.key !in typed ==> Shape(f.kind, extra[f.key])
  }

  lemma FieldValuesShaped(action: string, form: Form)
    requires SchemaForAction(action).known && Typed(SchemaForAction(action).fields, form.texts).Ok? && WellShaped(action, form)
    ensures Shaped(SchemaForAction(action).fields, FieldValues(action, form))
  {
    var fields, values := SchemaForAction(action).fields, FieldValues(action, form);
    SchemasDistinct(action);
    TypedShaped(fields, form.texts);
    forall i | 0 <= i < |fields|
      ensures fields[i].required ==> fields[i].key in values
      ensures fields[i].key in values ==> Shape(fields[i].kind, values[fields[i].key])
    {
      assert fields[i] in fields && fields[i].key in Keys(fields);
    }
  }

  lemma SplitByFields(extra: Object, typed: Object, keys: set<string>)
    requires typed.Keys <= keys
    ensures (extra - keys) + (map k | k in extra + typed && k in keys :: (extra + typed)[k]) == extra + typed
  {
  }

  lemma BuildByFields(action: string, form: Form)
    requires SchemaForAction(action).known && Build(action, form).Ok? && Typed(SchemaForAction(action).fields, form.texts).Ok?
    ensures Build(action, form).value == Finish(action, Beside(action, form) + FieldValues(action, form))
  {
    BuildParts(action, form);
    var fields := SchemaForAction(action).fields;
    SchemasDistinct(action);
    TypedKeys(fields, form.texts);
    SplitByFields(AdvancedFields(form.advanced), Typed(fields, form.texts).value, Keys(fields));
  }

  lemma TypedKeys(fields: seq<Field>, texts: map<string, string>)
    requires DistinctKeys(fields) && Typed(fields, texts).Ok?
    ensures Typed(fields, texts).value.Keys <= Keys(fields)
  {
    TypedShaped(fields, texts);
  }

  /** Saving a step opened for editing, untouched, gives the same step exactly when no field loses
      anything in being shown: every list has an item, every environment value survives, and trimming an
      environment's text takes nothing off it. */
  lemma EditThenSaveExactly(action: string, form: Form, p: Printing)
    requires Orderly(p) && SchemaForAction(action).known && Build(action, form).Ok?
    requires Typed(SchemaForAction(action).fields, form.texts).Ok?
    requires Apart(action, Beside(action, form)) && WellShaped(action, form)
    requires PlainEnvs(SchemaForAction(action).fields, FieldValues(action, form))
    ensures Build(action, Edit(action, Build(action, form).value, p)) == Build(action, form) <==>
      Surviving(SchemaForAction(action).fields, FieldValues(action, form), p)
  {
    BuildByFields(action, form);
    FieldValuesShaped(action, form);
    var fields, extra, typed := SchemaForAction(action).fields, Beside(action, form), FieldValues(action, form);
    SchemasDistinct(action);
    EditShows(action, extra, typed, p);
    var texts := Texts(fields, Flatten(action, Build(action, form).value), p);
    SavedAgain(action, extra, typed, texts, p);
    FilledShaped(action, typed, p);
    TypedAgainExactly(fields, Filled(action, typed), texts, p);
    BuildOfEdit(action, Build(action, form).value, p);
  }

  // ---- When nothing is lost. ----

  /** Values without tabs, of printable characters, in which a backslash comes with a blank or a quote. */
  predicate Printable(v: string, table: char -> bool) {
    (forall c :: c in v ==> IsPrint(c, table)) && ('\\' in v ==> NeedsQuote(v))
  }

  /** The values of an environment are printable, and a list is not empty. */
  predicate Presentable(kind: Kind, v: Json, p: Printing) {
    match kind
    case EnvKind => v.JObj? && forall k :: k in v.fields ==>
        v.fields[k].JStr? && CleanKey(k) && Printable(v.fields[k].s, p.table) && forall c :: c in k ==> !IsSpace(c)
    case ListKind => v.JArr? && v.items != []
    case _ => true
  }

  lemma PrintableEnds(v: string, p: Printing)
    requires Orderly(p) && Printable(v, p.table)
    ensures ValueHolds(v)
  {
    if v != "" && !NeedsQuote(v) { assert v[|v| - 1] in v; }
  }

  lemma PresentableKeeps(kind: Kind, v: Json, p: Printing)
    requires Orderly(p) && Shape(kind, v) && Presentable(kind, v, p)
    ensures Keeps(kind, v, p) && (kind.EnvKind? ==> PlainEnv(v))
  {
    if kind.EnvKind? {
      var keys, m := p.order(v.fields.Keys), Scalars(v.fields, p);
      var some :| some in v.fields;
      assert some in keys;
      forall i | 0 <= i < |keys| ensures Survives(m[keys[i]], i == |keys| - 1, p.table) && ValueHolds(m[keys[i]]) {
        assert keys[i] in keys && m[keys[i]] == v.fields[keys[i]].s;
        PrintableEnds(m[keys[i]], p);
      }
      assert keys[0] in keys;
    }
  }

  /** Every step the form made of printable values and filled lists is saved again as it was. */
  lemma EditThenSave(action: string, form: Form, p: Printing)
    requires Orderly(p) && SchemaForAction(action).known && Build(action, form).Ok?
    requires Typed(SchemaForAction(action).fields, form.texts).Ok?
    requires Apart(action, Beside(action, form)) && WellShaped(action, form)
    requires var fields, values := SchemaForAction(action).fields, FieldValues(action, form);
      forall i :: 0 <= i < |fields| && fields[i].key in values ==> Presentable(fields[i].kind, values[fields[i].key], p)
    ensures Build(action, Edit(action, Build(action, form).value, p)) == Build(action, form)
  {
    FieldValuesShaped(action, form);
    var fields, values := SchemaForAction(action).fields, FieldValues(action, form);
    forall i | 0 <= i < |fields| && fields[i].key in values
      ensures Keeps(fields[i].kind, values[fields[i].key], p) && (fields[i].kind.EnvKind? ==> PlainEnv(values[fields[i].key]))
    {
      PresentableKeeps(fields[i].kind, values[fields[i].key], p);
    }
    EditThenSaveExactly(action, form, p);
  }

  /** The edit form of a step with an empty list of destinations shows none. */
  lemma NoDestinationsShown(extra: Object, typed: Object, p: Printing)
    requires Orderly(p) && Apart(BUILD_IMAGE, extra) && Shaped(SchemaForAction(BUILD_IMAGE).fields, typed)
    requires "destinations" in typed && typed["destinations"] == JArr([])
    ensures var fields := SchemaForAction(BUILD_IMAGE).fields;
      var texts := Texts(fields, Flatten(BUILD_IMAGE, Finish(BUILD_IMAGE, extra + typed)), p);
      Typed(fields, texts) == Err(Required("destinations"))
  {
    var fields := SchemaForAction(BUILD_IMAGE).fields;
    EditShows(BUILD_IMAGE, extra, typed, p);
    FirstField(fields);
    EmptyListShown(fields, typed, Texts(fields, Flatten(BUILD_IMAGE, Finish(BUILD_IMAGE, extra + typed)), p), p);
  }

  lemma EmptyListShown(fields: seq<Field>, m: Object, texts: map<string, string>, p: Printing)
    requires Orderly(p) && Shows(texts, fields, m, p) && fields != [] && fields[0].required && fields[0].kind.ListKind?
    requires fields[0].key in m && m[fields[0].key] == JArr([])
    ensures Typed(fields, texts) == Err(Required(fields[0].key))
  {
    FirstNotFilled(fields, texts);
  }

  lemma FirstField(fields: seq<Field>)
    requires fields == SchemaForAction(BUILD_IMAGE).fields
    ensures fields != [] && fields[0] == Field("destinations", true, ListKind)
  {
  }

  /** A build of which the destinations were read as an empty list is accepted, and its own edit form
      is not. */
  lemma SeparatorsAreLost(form: Form, p: Printing)
    requires Orderly(p) && Build(BUILD_IMAGE, form).Ok? && Apart(BUILD_IMAGE, AdvancedFields(form.advanced))
    requires TypedAs(form, "destinations", JArr([]))
    ensures Build(BUILD_IMAGE, Edit(BUILD_IMAGE, Build(BUILD_IMAGE, form).value, p)) == Err(Required("destinations"))
  {
    BuildParts(BUILD_IMAGE, form);
    SchemasDistinct(BUILD_IMAGE);
    TypedShaped(SchemaForAction(BUILD_IMAGE).fields, form.texts);
    NoDestinationsShown(AdvancedFields(form.advanced), Typed(SchemaForAction(BUILD_IMAGE).fields, form.texts).value, p);
    BuildOfEdit(BUILD_IMAGE, Build(BUILD_IMAGE, form).value, p);
  }

  predicate TypedAs(form: Form, key: string, v: Json) {
    var typed := Typed(SchemaForAction(BUILD_IMAGE).fields, form.texts);
    typed.Ok? && key in typed.value && typed.value[key] == v
  }

  lemma FirstNotFilled(fields: seq<Field>, texts: map<string, string>)
    requires fields != [] && fields[0].required && ValueOf(texts, fields[0].key) == ""
    ensures Typed(fields, texts) == Err(Required(fields[0].key))
  {
    assert TrimSpace("") == "";
    assert fields[..1] == [fields[0]] && [fields[0]][..0] == [];
    FirstErrorWins(fields, texts, 1);
  }

  /** Fields left empty add nothing. */
  lemma {:induction false} EmptyFields(fields: seq<Field>, texts: map<string, string>, i: nat)
    requires i <= |fields|
    requires forall j :: i <= j < |fields| ==> !fields[j].required && ValueOf(texts, fields[j].key) == ""
    ensures Typed(fields, texts) == Typed(fields[..i], texts)
    decreases |fields|
  {
    if i == |fields| {
      assert fields[..i] == fields;
    } else {
      var n := |fields| - 1;
      assert fields[..n][..i] == fields[..i];
      EmptyFields(fields[..n], texts, i);
      assert TrimSpace("") == "";
    }
  }

  const SEPARATOR_FORM := Form(map["destinations" := ",", "runner_class" := "kata"], Blank)

  /** Such a build: a comma for its destinations and a runner class. */
  lemma SeparatorsAreAccepted()
    ensures Build(BUILD_IMAGE, SEPARATOR_FORM).Ok? && TypedAs(SEPARATOR_FORM, "destinations", JArr([]))
  {
    var fields, texts := SchemaForAction(BUILD_IMAGE).fields, SEPARATOR_FORM.texts;
    OtherTexts();
    CommaIsNoItem();
    assert fields[..8] == fields && fields[..8][..7] == fields[..7] && fields[..7][..1] == [fields[0]] && [fields[0]][..0] == [];
    EmptyFields(fields[..7], texts, 1);
    TrimSpaceIdentity("kata");
    assert fields[0].key == "destinations" && fields[7] == Must("runner_class");
  }

  lemma CommaIsNoItem()
    ensures ReadField(Field("destinations", true, ListKind), TrimSpace(",")) == Ok(Some(JArr([])))
  {
    TrimSpaceIdentity(",");
    assert ","[1..] == "" && Words("", "") == [] && Words(",", "") == [] + [];
    assert Strings([]) == [];
  }

  lemma OtherTexts()
    ensures var fields := SchemaForAction(BUILD_IMAGE).fields;
      forall i :: 1 <= i < 7 ==> !fields[i].required && ValueOf(SEPARATOR_FORM.texts, fields[i].key) == ""
    ensures "destinations" != "runner_class"
  {
    assert |"destinations"| == |"runner_class"| && "destinations"[0] != "runner_class"[0];
  }

  lemma UnknownBuild(action: string, form: Form)
    requires !SchemaForAction(action).known
    ensures Build(action, form) == ExtraOf(false, form.advanced)
  {
    if form.advanced.Extra? { assert form.advanced.fields + map[] == form.advanced.fields; }
  }

  lemma UnknownEdit(action: string, w: Object, p: Printing)
    requires Orderly(p) && !SchemaForAction(action).known
    ensures Edit(action, w, p).advanced == if w == map[] then Blank else Extra(w)
  {
    assert Keys([]) == {} && w - {} == w;
  }

  /** Without a schema, a step is saved again as it was exactly when its object is not empty. */
  lemma UnknownActionExactly(action: string, form: Form, p: Printing)
    requires Orderly(p) && !SchemaForAction(action).known && Build(action, form).Ok?
    ensures Build(action, Edit(action, Build(action, form).value, p)) == Build(action, form) <==>
      Build(action, form).value != map[]
  {
    var w := Build(action, form).value;
    UnknownEdit(action, w, p);
    UnknownBuild(action, form);
    UnknownBuild(action, Edit(action, w, p));
  }
}
