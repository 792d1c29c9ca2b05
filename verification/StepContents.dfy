/** What the step form builds, key by key: which texts an action takes, which it needs, what each is read as,
    and where it ends up. */
module StepContents {
  import opened Options
  import opened Text
  import opened Numerals
  import opened JsonValues
  import opened EnvTokens
  import opened StepFields
  import opened StepForm
  import opened StepRoundTrip

  // ---- What an action takes. ----

  /** What a text stands for. */
  datatype Reading = AsText | AsNumber | AsAssignments | AsVolume | AsList

  /** A key an action has a field for, and whether it cannot do without. */
  datatype Entry = Needed(key: string, reading: Reading) | Optional(key: string, reading: Reading)

  function Takes(action: string): seq<Entry> {
    match action
    case "forge/run" => [
        Needed("image", AsText), Needed("run", AsText), Optional("env", AsAssignments),
        Optional("runner_class", AsText), Optional("volumes", AsVolume)]
    case "forge/create-volume" => [
        Optional("name", AsText), Optional("size_mb", AsNumber), Optional("medium", AsText),
        Optional("mount_path", AsText)]
    case "forge/build-image" => [
        Needed("destinations", AsList), Optional("dockerfile", AsText), Optional("context", AsText),
        Optional("build_args", AsAssignments), Optional("target", AsText), Optional("registry_secret", AsText),
        Optional("volumes", AsVolume), Needed("runner_class", AsText)]
    case "forge/git-clone" => [
        Needed("volumes", AsVolume), Optional("path", AsText), Optional("ref", AsText), Optional("depth", AsNumber),
        Optional("run", AsText)]
    case "tickets/create" => [
        Needed("title", AsText), Optional("description", AsText), Optional("priority", AsText),
        Optional("status", AsText)]
    case "tickets/update" => [
        Needed("id", AsText), Needed("title", AsText), Optional("status", AsText), Optional("priority", AsText),
        Optional("description", AsText)]
    case "tickets/delete" => [Needed("id", AsText)]
    case "argo/sync" => [Needed("name", AsText), Optional("revision", AsText), Optional("outpost_id", AsText)]
    case "chaos/run-experiment" => [
        Needed("outpost_id", AsText), Needed("experiment_type", AsText), Needed("target_app_ns", AsText),
        Needed("target_app_label", AsText), Optional("target_app_kind", AsText), Optional("params", AsAssignments)]
    case "blueprints/backend" => [Optional("workspace", AsText), Optional("ttl_secs", AsNumber)]
    case "workflows/trigger" => [Needed("pipeline", AsText), Optional("inputs", AsAssignments)]
    case _ => []
  }

  predicate Reads(kind: Kind, reading: Reading) {
    match kind
    case TextKind => reading.AsText?
    case IntKind => reading.AsNumber?
    case EnvKind => reading.AsAssignments?
    case VolumeKind => reading.AsVolume?
    case ListKind => reading.AsList?
  }

  /** The fields are the entries, in order. */
  predicate Lists(fields: seq<Field>, entries: seq<Entry>) {
    && |fields| == |entries|
    && forall i :: 0 <= i < |entries| ==>
         fields[i].key == entries[i].key && (fields[i].required <==> entries[i].Needed?) && Reads(fields[i].kind, entries[i].reading)
  }

  /** The action has the fields listed for it. */
  predicate Listed(action: string) {
    SchemaForAction(action).known && Lists(SchemaForAction(action).fields, Takes(action))
  }

  lemma RunListed()
    ensures Listed("forge/run")
  {
  }

  lemma VolumeListed()
    ensures Listed("forge/create-volume")
  {
  }

  lemma BuildListed()
    ensures Listed("forge/build-image")
  {
  }

  lemma CloneListed()
    ensures Listed("forge/git-clone")
  {
  }

  lemma CreateListed()
    ensures Listed("tickets/create")
  {
  }

  lemma UpdateListed()
    ensures Listed("tickets/update")
  {
  }

  lemma DeleteListed()
    ensures Listed("tickets/delete")
  {
  }

  lemma SyncListed()
    ensures Listed("argo/sync")
  {
  }

  lemma ChaosListed()
    ensures Listed("chaos/run-experiment")
  {
  }

  lemma BackendListed()
    ensures Listed("blueprints/backend")
  {
  }

  lemma TriggerListed()
    ensures Listed("workflows/trigger")
  {
  }

  /** Every action has the fields listed for it; one without any has no schema. */
  lemma ActionListed(action: string)
    ensures Lists(SchemaForAction(action).fields, Takes(action))
    ensures SchemaForAction(action).known <==> Takes(action) != []
  {
    match action
    case "forge/run" => RunListed();
    case "forge/create-volume" => VolumeListed();
    case "forge/build-image" => BuildListed();
    case "forge/git-clone" => CloneListed();
    case "tickets/create" => CreateListed();
    case "tickets/update" => UpdateListed();
    case "tickets/delete" => DeleteListed();
    case "argo/sync" => SyncListed();
    case "chaos/run-experiment" => ChaosListed();
    case "blueprints/backend" => BackendListed();
    case "workflows/trigger" => TriggerListed();
    case _ =>
  }

  // ---- What the texts are read as. ----

  /** The trimmed text of a key. */
  function Filled(form: Form, key: string): string { TrimSpace(ValueOf(form.texts, key)) }

  /** The field is among the typed values exactly when its text is read as one. */
  predicate TypedAs(f: Field, texts: map<string, string>, typed: Object) {
    var r := ReadField(f, TrimSpace(ValueOf(texts, f.key)));
    && r.Ok?
    && (f.key in typed <==> r.value.Some?)
    && (r.value.Some? ==> typed[f.key] == r.value.value)
  }

  lemma {:induction false} TypedReads(fields: seq<Field>, texts: map<string, string>, i: nat)
    requires DistinctKeys(fields) && i < |fields| && Typed(fields, texts).Ok?
    ensures TypedAs(fields[i], texts, Typed(fields, texts).value)
  {
    var n := |fields| - 1;
    TypedShaped(fields[..n], texts);
    if i < n {
      TypedReads(fields[..n], texts, i);
      assert fields[..n][i] == fields[i];
      ReadsLonger(fields[i], fields[n], texts, Typed(fields[..n], texts).value, Typed(fields, texts).value);
    } else {
      KeyIsNew(fields, n);
    }
  }

  lemma ReadsLonger(f: Field, last: Field, texts: map<string, string>, before: Object, after: Object)
    requires f.key != last.key && TypedAs(f, texts, before)
    requires AddRead(before, last.key, ReadField(last, TrimSpace(ValueOf(texts, last.key)))) == Ok(after)
    ensures TypedAs(f, texts, after)
  {
  }

  /** The value of a text. */
  predicate ReadAs(reading: Reading, text: string, v: Json) {
    match reading
    case AsText => v == JStr(text)
    case AsNumber => v.JNum? && v.n >= 0 && ParseInt(text) == Some(v.n)
    case AsAssignments => ParseEnv(text).Ok? && v == EnvObject(ParseEnv(text).value)
    case AsVolume => v == VolumeAttachWith(text)
    case AsList => v == JArr(Strings(NonBlank(StepFields.Words(text, ""))))
  }

  /** The text has a value. */
  predicate Readable(reading: Reading, text: string) {
    match reading
    case AsNumber => ParseInt(text).Some? && ParseInt(text).value >= 0
    case AsAssignments => ParseEnv(text).Ok?
    case _ => true
  }

  lemma ReadByEntry(f: Field, e: Entry, text: string)
    requires (f.required <==> e.Needed?) && Reads(f.kind, e.reading)
    ensures ReadField(f, text).Ok? <==> if text == "" then e.Optional? else Readable(e.reading, text)
    ensures ReadField(f, text).Ok? ==> (ReadField(f, text).value.Some? <==> text != "")
    ensures ReadField(f, text).Ok? && text != "" ==> ReadAs(e.reading, text, ReadField(f, text).value.value)
  {
  }

  lemma EntryBuilt(fields: seq<Field>, entries: seq<Entry>, form: Form, i: nat)
    requires Lists(fields, entries) && DistinctKeys(fields) && Typed(fields, form.texts).Ok? && i < |entries|
    ensures var typed, e := Typed(fields, form.texts).value, entries[i];
      && (e.key in typed <==> Filled(form, e.key) != "")
      && (e.key in typed ==> ReadAs(e.reading, Filled(form, e.key), typed[e.key]))
      && (e.Needed? ==> e.key in typed)
  {
    TypedReads(fields, form.texts, i);
    ReadByEntry(fields[i], entries[i], Filled(form, entries[i].key));
  }

  /** A step that is built has, of the keys that its action takes, those that are filled in, each with the value of
      its text; every key that the action needs is among them, and no other key is typed. */
  lemma BuiltFromTexts(action: string, form: Form, i: nat)
    requires SchemaForAction(action).known && Build(action, form).Ok? && i < |Takes(action)|
    ensures Typed(SchemaForAction(action).fields, form.texts).Ok?
    ensures var typed, e := Typed(SchemaForAction(action).fields, form.texts).value, Takes(action)[i];
      && (e.key in typed <==> Filled(form, e.key) != "")
      && (e.key in typed ==> ReadAs(e.reading, Filled(form, e.key), typed[e.key]))
      && (e.Needed? ==> e.key in typed)
      && typed.Keys <= set j | 0 <= j < |Takes(action)| :: Takes(action)[j].key
  {
    BuildParts(action, form);
    ActionListed(action);
    SchemasDistinct(action);
    TypedShaped(SchemaForAction(action).fields, form.texts);
    EntryBuilt(SchemaForAction(action).fields, Takes(action), form, i);
    KeysListed(SchemaForAction(action).fields, Takes(action));
  }

  lemma KeysListed(fields: seq<Field>, entries: seq<Entry>)
    requires Lists(fields, entries)
    ensures Keys(fields) == set j | 0 <= j < |entries| :: entries[j].key
  {
    forall i | 0 <= i < |fields| ensures fields[i].key == entries[i].key {}
  }

  /** A step can be built exactly when every key that its action needs is filled in, every text that is filled in
      has a value, and the advanced object is none or one. */
  lemma BuildSucceedsExactly(action: string, form: Form)
    requires SchemaForAction(action).known
    ensures Build(action, form).Ok? <==>
      !form.advanced.Malformed? && forall i :: 0 <= i < |Takes(action)| ==>
        if Filled(form, Takes(action)[i].key) == "" then Takes(action)[i].Optional?
        else Readable(Takes(action)[i].reading, Filled(form, Takes(action)[i].key))
  {
    ActionListed(action);
    var fields, entries := SchemaForAction(action).fields, Takes(action);
    forall i | 0 <= i < |entries|
      ensures ReadField(fields[i], Filled(form, fields[i].key)).Ok? <==>
        if Filled(form, entries[i].key) == "" then entries[i].Optional? else Readable(entries[i].reading, Filled(form, entries[i].key))
    {
      ReadByEntry(fields[i], entries[i], Filled(form, entries[i].key));
    }
    TypedExactly(fields, form.texts);
  }

  lemma {:induction false} TypedExactly(fields: seq<Field>, texts: map<string, string>)
    ensures Typed(fields, texts).Ok? <==> forall i :: 0 <= i < |fields| ==> ReadField(fields[i], TrimSpace(ValueOf(texts, fields[i].key))).Ok?
  {
    if fields != [] {
      var n := |fields| - 1;
      TypedExactly(fields[..n], texts);
      forall i | 0 <= i < n ensures fields[..n][i] == fields[i] {}
    }
  }

  /** What the volume field attaches: a name and a place, each with its default, as the run's working directory. */
  lemma VolumeText(name: string, mount: string)
    requires VolumeName(name) && Solid(mount)
    ensures VolumeAttachWith(name + ":" + mount) ==
      JArr([JObj(map["workflow_id" := JStr("${run_id}"), "name" := JStr(name), "mount_path" := JStr(mount), "workdir" := JBool(true)])])
    ensures VolumeAttachWith(name) == VolumeAttachWith(name + ":" + "/workspace")
    ensures VolumeAttachWith(":" + mount) == VolumeAttachWith("workspace" + ":" + mount)
  {
    CutColon(name, mount);
    CutColon("", mount);
    CutColon("workspace", mount);
    CutColon(name, "/workspace");
    CutAbsent(name, ':');
    TrimSpaceIdentity(name);
    TrimSpaceIdentity(mount);
    TrimSpaceIdentity("workspace");
    TrimSpaceIdentity("/workspace");
    assert TrimSpace("") == "";
  }

  lemma CutColon(name: string, mount: string)
    requires ':' !in name
    ensures Cut(name + ":" + mount, ':') == (name, Some(mount))
  {
    CutJoined(name, ':', mount);
    assert name + [':'] + mount == name + ":" + mount;
  }

  /** Where a finished build step has its keys: those of the build under "build", the registry secret as one more
      secret reference, every other where it was. */
  lemma BuildStepLayout(m: Object)
    ensures var w := Finish("forge/build-image", m);
      && (forall k :: k in ["destinations", "dockerfile", "context", "build_args", "target"] ==>
            k !in w && (k in m ==> "build" in w && w["build"].JObj? && k in w["build"].fields && w["build"].fields[k] == m[k]))
      && ("registry_secret" in m && m["registry_secret"].JStr? && m["registry_secret"].s != "" ==>
            && "registry_secret" !in w && "secret_refs" in w && w["secret_refs"].JObj?
            && "REGISTRY_AUTH" in w["secret_refs"].fields
            && w["secret_refs"].fields["REGISTRY_AUTH"] == JStr("secret:" + m["registry_secret"].s))
  {
    BuildRequestShape(m);
    assert forall k :: k in BUILD_FIELDS && k in m ==> k in Picked(m, BUILD_FIELDS);
  }

  /** Where a finished clone step has its keys: those of the checkout under "checkout", and a command. */
  lemma CloneStepLayout(m: Object)
    ensures var w := Finish("forge/git-clone", m);
      && "checkout" in w && w["checkout"].JObj?
      && (forall k :: k in ["path", "ref", "depth"] ==>
            k !in w && (k in m ==> k in w["checkout"].fields && w["checkout"].fields[k] == m[k]))
      && "run" in w && w["run"] == (if "run" in m then m["run"] else JStr("true"))
  {
    CheckoutRequestShape(m);
  }

  /** A volume is created for the run unless the advanced object says otherwise. */
  lemma VolumeStepScope(m: Object)
    ensures var w := Finish("forge/create-volume", m);
      && "workflow_id" in w && w["workflow_id"] == (if "workflow_id" in m then m["workflow_id"] else JStr("${run_id}"))
      && w - {"workflow_id"} == m - {"workflow_id"}
  {
  }

  /** An action without a schema is built exactly from an advanced object, which is the step. */
  lemma UnknownNeedsObject(action: string, form: Form)
    requires Takes(action) == []
    ensures Build(action, form).Ok? <==> form.advanced.Extra?
    ensures form.advanced.Extra? ==> Build(action, form).value == form.advanced.fields
  {
    ActionListed(action);
    UnknownBuild(action, form);
  }

  /** The edit form does not show the scope that a volume has by default, and shows any other. */
  lemma DefaultScopeHidden(w: Object, p: Printing)
    requires Orderly(p) && "workflow_id" in w
    ensures var shown := Edit("forge/create-volume", w, p).advanced;
      ("workflow_id" in AdvancedFields(shown) <==> w["workflow_id"] != JStr("${run_id}"))
  {
    VolumeListed();
    KeysListed(SchemaForAction("forge/create-volume").fields, Takes("forge/create-volume"));
    assert "workflow_id" !in Keys(SchemaForAction("forge/create-volume").fields) by { VolumeSchema(); }
  }

  // ---- Lists and shown values. ----

  predicate ListGap(gap: string) {
    gap != "" && forall i :: 0 <= i < |gap| ==> gap[i] == ',' || gap[i] == ' ' || gap[i] == '\t' || gap[i] == '\n'
  }

  lemma {:induction false} GapSkipped(gap: string, rest: string)
    requires forall i :: 0 <= i < |gap| ==> gap[i] == ',' || gap[i] == ' ' || gap[i] == '\t' || gap[i] == '\n'
    ensures StepFields.Words(gap + rest, "") == StepFields.Words(rest, "")
    decreases |gap|
  {
    if gap == "" {
      assert gap + rest == rest;
    } else {
      assert (gap + rest)[1..] == gap[1..] + rest;
      GapSkipped(gap[1..], rest);
    }
  }

  /** However the items of a list are set apart, by commas, blanks, tabs or line ends, they are what is read. */
  lemma {:induction false} ListReads(items: seq<string>, gap: string)
    requires ListGap(gap) && forall i :: 0 <= i < |items| ==> Item(items[i])
    ensures NonBlank(StepFields.Words(Join(items, gap), "")) == items
  {
    SetApart(items, gap);
    ItemsStay(items);
  }

  lemma {:induction false} SetApart(items: seq<string>, gap: string)
    requires ListGap(gap) && forall i :: 0 <= i < |items| ==> Item(items[i])
    ensures StepFields.Words(Join(items, gap), "") == items
  {
    if |items| == 1 {
      WordsOfRun(items[0], "", "");
      assert items[0] + "" == items[0] && "" + items[0] == items[0] && items == [items[0]];
    } else if |items| > 1 {
      var rest := Join(items[1..], gap);
      assert Join(items, gap) == items[0] + (gap + rest);
      WordsOfRun(items[0], gap + rest, "");
      assert "" + items[0] == items[0] && (gap + rest)[0] == gap[0] && (gap + rest)[1..] == gap[1..] + rest;
      GapSkipped(gap[1..], rest);
      SetApart(items[1..], gap);
      assert items == [items[0]] + items[1..];
    }
  }

  /** How values that no field produces are shown: truth values by their names, numbers in decimal, attachments only
      when there is one and it is named, lists by their strings, and otherwise nothing or the JSON text. */
  lemma ShownExactly(v: Json, p: Printing)
    requires Orderly(p)
    ensures ShowField(TextKind, JBool(true), p) == "true" && ShowField(TextKind, JBool(false), p) == "false"
    ensures v.JStr? ==> ShowField(TextKind, v, p) == v.s
    ensures v.JNum? ==> ShowField(TextKind, v, p) == FormatInt(v.n) == ShowField(IntKind, v, p)
    ensures v.JArr? || v.JObj? ==> ShowField(TextKind, v, p) == p.json(v)
    ensures !v.JArr? ==> ShowField(ListKind, v, p) == "" && ShowField(VolumeKind, v, p) == ""
    ensures v.JArr? && |v.items| != 1 ==> ShowField(VolumeKind, v, p) == ""
    ensures v.JArr? && |v.items| == 1 && !v.items[0].JObj? ==> ShowField(VolumeKind, v, p) == ""
    ensures v.JArr? && |v.items| == 1 && v.items[0].JObj? && "name" !in v.items[0].fields ==> ShowField(VolumeKind, v, p) == ""
    ensures !v.JObj? ==> ShowField(EnvKind, v, p) == ShowField(TextKind, v, p)
    ensures v.JObj? ==>
      ShowField(EnvKind, v, p) == FormatEnv(p.order(v.fields.Keys), map k | k in v.fields :: ShowField(TextKind, v.fields[k], p), p.table)
  {
    if v.JObj? { assert Scalars(v.fields, p) == map k | k in v.fields :: ShowField(TextKind, v.fields[k], p); }
  }
}
