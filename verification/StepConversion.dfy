/** convert-step and localize-step: a step's definition moved out of a pipeline into a stored step, or
    copied back in.  What a pipeline does is what the server makes of its step references. */
module StepConversion {
  import opened Options
  import opened JsonValues
  import opened FreshIds

  /** The settings of a matrix that both programs know. */
  datatype MatrixSettings = MatrixSettings(variable: string, values: seq<string>, valuesFrom: string, maxConcurrent: int,
    sequential: bool)

  /** A matrix as the server stores it: without allowEmpty, no values fail the run. */
  datatype Matrix = Matrix(settings: MatrixSettings, allowEmpty: bool)

  /** The settings of a scatter that both programs know. */
  datatype ScatterSettings = ScatterSettings(volume: string, mountPath: string, regex: string, mode: string, maxDepth: int,
    pathsFrom: string, outputs: seq<string>, sizeMb: int, medium: string, maxConcurrent: int)

  datatype Scatter = Scatter(settings: ScatterSettings, shareBase: bool)

  datatype Grant = Grant(service: string, action: string, resource: string)

  datatype Approval = Approval(message: string, approvers: seq<string>)

  /** A step reference as the server stores it. */
  datatype Ref = Ref(stepId: string, action: string, timeout: int, name: string, with: Object, matrix: Option<Matrix>,
    scatter: Option<Scatter>, mapId: string, loopId: string, approval: Option<Approval>,
    allowUnresolved: bool, permissions: seq<Grant>)

  /** A step reference as the command line decodes it. */
  datatype CliRef = CliRef(stepId: string, action: string, timeout: int, name: string, with: Object,
    matrix: Option<MatrixSettings>, scatter: Option<ScatterSettings>, mapId: string, approval: Option<Approval>)

  datatype StepDef = StepDef(name: string, action: string, with: Object, timeout: int)

  /** A reference read and written by the command line: what it has no field for is gone. */
  function Decode(r: Ref): CliRef {
    CliRef(r.stepId, r.action, r.timeout, r.name, r.with,
           match r.matrix case Some(m) => Some(m.settings) case None => None,
           match r.scatter case Some(s) => Some(s.settings) case None => None, r.mapId, r.approval)
  }

  function Encode(r: CliRef): Ref {
    Ref(r.stepId, r.action, r.timeout, r.name, r.with,
        match r.matrix case Some(m) => Some(Matrix(m, false)) case None => None,
        match r.scatter case Some(s) => Some(Scatter(s, false)) case None => None, r.mapId, "", r.approval, false, [])
  }

  function DecodeAll(refs: seq<Ref>): seq<CliRef> { seq(|refs|, i requires 0 <= i < |refs| => Decode(refs[i])) }

  function EncodeAll(refs: seq<CliRef>): seq<Ref> { seq(|refs|, i requires 0 <= i < |refs| => Encode(refs[i])) }

  // ---- What a reference does. ----

  const DEFAULT_TIMEOUT := 30
  const MAX_TIMEOUT := 3600

  /** The seconds a step is given. */
  function Bounded(timeout: int): int {
    if timeout <= 0 then DEFAULT_TIMEOUT else if timeout > MAX_TIMEOUT then MAX_TIMEOUT else timeout
  }

  datatype Effective =
    | Gate(name: string, approval: Approval)
    | Step(name: string, action: string, with: Object, timeout: int, matrix: Option<Matrix>, scatter: Option<Scatter>,
           mapId: string, loopId: string, allowUnresolved: bool, permissions: seq<Grant>)

  /** The step the server runs for a reference; none when its stored step is gone. */
  function Run(r: Ref, steps: map<string, StepDef>): Option<Effective> {
    if r.approval.Some? then Some(Gate(if r.name != "" then r.name else "approval", r.approval.value))
    else if r.stepId == "" && r.action != "" then
      Some(Step(r.name, r.action, r.with, Bounded(r.timeout), r.matrix, r.scatter, r.mapId, r.loopId, r.allowUnresolved, r.permissions))
    else if r.stepId !in steps then None
    else
      var s := steps[r.stepId];
      Some(Step(if r.name != "" then r.name else s.name, s.action, s.with + r.with, Bounded(s.timeout),
                r.matrix, r.scatter, r.mapId, r.loopId, r.allowUnresolved, r.permissions))
  }

  // ---- The server. ----

  predicate Acceptable(d: StepDef) { d.name != "" && d.action != "" && 0 <= d.timeout <= MAX_TIMEOUT }

  /** A definition as stored: a timeout of zero becomes the default. */
  function Kept(d: StepDef): StepDef { if d.timeout == 0 then d.(timeout := DEFAULT_TIMEOUT) else d }

  predicate Refers(refs: seq<Ref>, id: string) { exists i :: 0 <= i < |refs| && refs[i].stepId == id }

  class Workflows {
    var pipelines: map<string, seq<Ref>>
    var steps: map<string, StepDef>

    constructor ()
      ensures Valid()
    {
      pipelines, steps := map[], map[];
    }

    /** Stored steps have ids and actions. */
    ghost predicate Valid()
      reads this
    {
      "" !in steps && forall id :: id in steps ==> steps[id].action != ""
    }

    /** Every id in use, whether its step still exists or not. */
    method IdsInUse() returns (ids: set<string>)
      ensures steps.Keys <= ids && forall p, id :: p in pipelines && Refers(pipelines[p], id) ==> id in ids
    {
      ids := steps.Keys + set p, i | p in pipelines && 0 <= i < |pipelines[p]| :: pipelines[p][i].stepId;
    }

    /** Stores a step; the id is empty when the request is refused. */
    method PostStep(d: StepDef, accepted: bool) returns (id: string)
      requires Valid()
      modifies this`steps
      ensures Valid() && (id != "" <==> accepted && Acceptable(d))
      ensures id != "" <==> accepted && d.name != "" && d.action != "" && 0 <= d.timeout <= 3600
      ensures id != "" ==> id in steps && steps[id] == d.(timeout := if d.timeout == 0 then 30 else d.timeout)
      ensures id == "" ==> steps == old(steps)
      ensures id != "" ==> id !in old(steps) && steps == old(steps)[id := Kept(d)]
      ensures id != "" ==> forall p :: p in pipelines ==> !Refers(pipelines[p], id)
    {
      id := "";
      if accepted && d.name != "" && d.action != "" && 0 <= d.timeout <= MAX_TIMEOUT {
        var used := IdsInUse();
        id := FreshId(used);
        steps := steps[id := Kept(d)];
      }
    }

    method PutPipeline(id: string, refs: seq<Ref>, accepted: bool) returns (ok: bool)
      modifies this`pipelines
      ensures ok == (accepted && id in old(pipelines))
      ensures pipelines == if ok then old(pipelines)[id := refs] else old(pipelines)
    {
      ok := accepted && id in pipelines;
      if ok {
        pipelines := pipelines[id := refs];
      }
    }
  }

  // ---- Promoting an inline step. ----

  predicate Inline(r: CliRef, name: string) { r.stepId == "" && r.approval.None? && r.action != "" && r.name == name }

  /** Index i is that of the first inline step of the name. */
  predicate FirstInline(refs: seq<CliRef>, name: string, i: nat) {
    i < |refs| && Inline(refs[i], name) && forall j :: 0 <= j < i ==> !Inline(refs[j], name)
  }

  function DefinitionOf(r: CliRef): StepDef { StepDef(r.name, r.action, r.with, r.timeout) }

  function Repointed(r: CliRef, id: string): CliRef { CliRef(id, "", 0, "", map[], r.matrix, None, r.mapId, None) }

  datatype Outcome = NotFound | NoSuchStep | NotCreated | NotSaved | Done(index: nat)

  /** An inline step of the name, as the server stores it. */
  predicate InlineNamed(r: Ref, name: string) { r.name == name && r.stepId == "" && r.action != "" && r.approval == None }

  method ConvertStep(server: Workflows, id: string, stepName: string, postAccepted: bool, putAccepted: bool)
    returns (r: Outcome, stepId: string)
    requires server.Valid()
    modifies server
    ensures server.Valid()
    ensures !r.Done? ==> server.pipelines == old(server.pipelines)
    ensures !r.Done? && !r.NotSaved? ==> server.steps == old(server.steps)
    ensures r.NotFound? <==> id !in old(server.pipelines)
    ensures r.NoSuchStep? <==>
      id in old(server.pipelines) && forall i :: 0 <= i < |old(server.pipelines)[id]| ==> !InlineNamed(old(server.pipelines)[id][i], stepName)
    ensures r.NotSaved? || r.Done? ==> stepId !in old(server.steps) && forall p :: p in old(server.pipelines) ==> !Refers(old(server.pipelines)[p], stepId)
    ensures r.NotCreated? ==>
      (!postAccepted || exists i: nat :: FirstInline(DecodeAll(old(server.pipelines)[id]), stepName, i)
                                         && !Acceptable(DefinitionOf(Decode(old(server.pipelines)[id][i]))))
    ensures r.NotSaved? ==> !putAccepted && stepId in server.steps && server.steps == old(server.steps)[stepId := server.steps[stepId]]
    ensures r.Done? ==> id in old(server.pipelines) && FirstInline(DecodeAll(old(server.pipelines)[id]), stepName, r.index)
    ensures r.Done? ==>
      (&& r.index < |old(server.pipelines)[id]| && InlineNamed(old(server.pipelines)[id][r.index], stepName)
       && (forall j :: 0 <= j < r.index ==> !InlineNamed(old(server.pipelines)[id][j], stepName))
       && stepId in server.steps && server.steps[stepId].name == stepName
       && server.steps[stepId].action == old(server.pipelines)[id][r.index].action
       && server.steps[stepId].with == old(server.pipelines)[id][r.index].with
       && id in server.pipelines && r.index < |server.pipelines[id]|
       && var now := server.pipelines[id][r.index];
          now.stepId == stepId && now.action == "" && now.name == "" && now.timeout == 0 && now.with == map[] && now.approval == None
          && now.mapId == old(server.pipelines)[id][r.index].mapId)
    ensures r.Done? ==>
      var refs := DecodeAll(old(server.pipelines)[id]);
      (&& server.steps == old(server.steps)[stepId := Kept(DefinitionOf(refs[r.index]))]
       && server.pipelines == old(server.pipelines)[id := EncodeAll(refs[r.index := Repointed(refs[r.index], stepId)])])
  {
    stepId := "";
    if id !in server.pipelines {
      return NotFound, stepId;
    }
    var refs := DecodeAll(server.pipelines[id]);
    assert forall i :: 0 <= i < |refs| ==> (Inline(refs[i], stepName) <==> InlineNamed(server.pipelines[id][i], stepName));
    var idx := 0;
    while idx < |refs| && !Inline(refs[idx], stepName)
      invariant 0 <= idx <= |refs| && forall j :: 0 <= j < idx ==> !Inline(refs[j], stepName)
    {
      idx := idx + 1;
    }
    if idx == |refs| {
      assert forall i :: 0 <= i < |refs| ==> refs[i] == Decode(server.pipelines[id][i]);
      return NoSuchStep, stepId;
    }
    var step := refs[idx];
    stepId := server.PostStep(DefinitionOf(step), postAccepted);
    if stepId == "" {
      assert FirstInline(refs, stepName, idx) && step == Decode(server.pipelines[id][idx]);
      return NotCreated, stepId;
    }
    refs := refs[idx := Repointed(step, stepId)];
    var ok := server.PutPipeline(id, EncodeAll(refs), putAccepted);
    r := if ok then Done(idx) else NotSaved;
  }

  // ---- Copying a stored step inline. ----

  function Localized(r: CliRef, d: StepDef): CliRef {
    CliRef("", d.action, d.timeout, if r.name != "" then r.name else d.name, d.with + r.with, r.matrix, None, r.mapId, None)
  }

  /** A stored reference shown under the name. */
  predicate StoredAs(r: CliRef, steps: map<string, StepDef>, name: string) {
    && r.stepId != "" && r.approval.None? && r.stepId in steps
    && name == if r.name != "" then r.name else steps[r.stepId].name
  }

  /** A stored reference whose step is gone. */
  predicate Dangling(r: Ref, steps: map<string, StepDef>) { r.stepId != "" && r.approval.None? && r.stepId !in steps }

  predicate FirstStored(refs: seq<CliRef>, steps: map<string, StepDef>, name: string, i: nat) {
    i < |refs| && StoredAs(refs[i], steps, name) && forall j :: 0 <= j < i ==> !StoredAs(refs[j], steps, name)
  }

  /** A reference to a stored step that is shown under the name, as the server stores it. */
  predicate StoredNamed(r: Ref, steps: map<string, StepDef>, name: string) {
    && r.stepId != "" && r.approval == None && r.stepId in steps
    && ((r.name != "" && r.name == name) || (r.name == "" && steps[r.stepId].name == name))
  }

  method LocalizeStep(server: Workflows, id: string, stepName: string, putAccepted: bool) returns (r: Outcome)
    requires server.Valid()
    modifies server
    ensures server.Valid() && server.steps == old(server.steps)
    ensures !r.Done? ==> server.pipelines == old(server.pipelines)
    ensures r.NotFound? ==>
      (id !in server.pipelines || exists i :: 0 <= i < |server.pipelines[id]| && Dangling(server.pipelines[id][i], server.steps))
    ensures r.NoSuchStep? <==>
      id in old(server.pipelines) && forall i :: 0 <= i < |old(server.pipelines)[id]| ==>
        !Dangling(old(server.pipelines)[id][i], server.steps) && !StoredNamed(old(server.pipelines)[id][i], server.steps, stepName)
    ensures r.NotSaved? ==> !putAccepted
    ensures r.Done? ==>
      && id in old(server.pipelines) && r.index < |old(server.pipelines)[id]|
      && StoredNamed(old(server.pipelines)[id][r.index], server.steps, stepName)
      && (forall j :: 0 <= j < r.index ==> !StoredNamed(old(server.pipelines)[id][j], server.steps, stepName))
      && id in server.pipelines && |server.pipelines[id]| == |old(server.pipelines)[id]|
      && InlineNamed(server.pipelines[id][r.index], stepName)
    ensures r.Done? ==> id in old(server.pipelines) && FirstStored(DecodeAll(old(server.pipelines)[id]), server.steps, stepName, r.index)
    ensures r.Done? ==>
      var refs := DecodeAll(old(server.pipelines)[id]);
      server.pipelines == old(server.pipelines)[id := EncodeAll(refs[r.index := Localized(refs[r.index], server.steps[refs[r.index].stepId])])]
  {
    if id !in server.pipelines {
      return NotFound;
    }
    var refs := DecodeAll(server.pipelines[id]);
    assert forall i :: 0 <= i < |refs| ==>
      (StoredAs(refs[i], server.steps, stepName) <==> StoredNamed(server.pipelines[id][i], server.steps, stepName));
    for i := 0 to |refs|
      invariant server.pipelines == old(server.pipelines)
      invariant forall j :: 0 <= j < i ==> !StoredAs(refs[j], server.steps, stepName) && !Dangling(server.pipelines[id][j], server.steps)
    {
      var step := refs[i];
      if step.stepId == "" || step.approval.Some? {
        continue;
      }
      if step.stepId !in server.steps {
        assert Dangling(server.pipelines[id][i], server.steps);
        return NotFound;
      }
      var def := server.steps[step.stepId];
      var eff := if step.name != "" then step.name else def.name;
      if eff == stepName {
        var ok := server.PutPipeline(id, EncodeAll(refs[i := Localized(step, def)]), putAccepted);
        return if ok then Done(i) else NotSaved;
      }
    }
    assert forall i :: 0 <= i < |refs| ==> refs[i] == Decode(server.pipelines[id][i]);
    return NoSuchStep;
  }

  // ---- What stays the same. ----

  /** The reference uses nothing the command line has no field for. */
  predicate Plain(r: Ref) {
    && r.loopId == "" && !r.allowUnresolved && r.permissions == []
    && (r.matrix.Some? ==> !r.matrix.value.allowEmpty)
    && (r.scatter.Some? ==> !r.scatter.value.shareBase)
  }

  /** Reading and writing a reference changes what it does exactly when it does something the command
      line has no field for. */
  lemma RewriteExactly(r: Ref, steps: map<string, StepDef>)
    ensures Run(Encode(Decode(r)), steps) == Run(r, steps) <==> r.approval.Some? || Run(r, steps).None? || Plain(r)
  {
  }

  /** Merely writing a pipeline back takes a step's declared permissions away. */
  lemma RewriteDropsPermissions()
    ensures var r := Ref("", "http", 0, "call", map[], None, None, "", "", None, false, [Grant("tickets", "create", "*")]);
      Run(Encode(Decode(r)), map[]) != Run(r, map[])
  {
    var r := Ref("", "http", 0, "call", map[], None, None, "", "", None, false, [Grant("tickets", "create", "*")]);
    RewriteExactly(r, map[]);
    assert "http" != "";
  }

  /** It also makes a matrix that may be empty fail the run when it is. */
  lemma RewriteDropsAllowEmpty()
    ensures var m := Matrix(MatrixSettings("dir", [], "${steps.changed.output}", 0, false), true);
      var r := Ref("", "forge/run", 0, "redeploy", map[], Some(m), None, "", "", None, false, []);
      && Run(r, map[]).Some? && Run(r, map[]).value.matrix == Some(m)
      && Run(Encode(Decode(r)), map[]).Some? && Run(Encode(Decode(r)), map[]).value.matrix == Some(m.(allowEmpty := false))
  {
    assert "forge/run" != "";
  }

  /** Every step of the pipeline does what it did. */
  predicate SameSteps(before: seq<Ref>, steps: map<string, StepDef>, after: seq<Ref>, now: map<string, StepDef>) {
    |after| == |before| && forall i :: 0 <= i < |before| ==> Run(after[i], now) == Run(before[i], steps)
  }

  lemma NewStepUnseen(r: Ref, steps: map<string, StepDef>, id: string, d: StepDef)
    requires r.stepId != id
    ensures Run(r, steps[id := d]) == Run(r, steps)
  {
  }

  /** The references other than the one at index idx do what they did when they are written back. */
  predicate OthersPlain(refs: seq<Ref>, steps: map<string, StepDef>, idx: nat) {
    forall i :: 0 <= i < |refs| && i != idx ==> refs[i].approval.Some? || Run(refs[i], steps).None? || Plain(refs[i])
  }

  lemma ConvertedStep(r: Ref, steps: map<string, StepDef>, id: string)
    requires Inline(Decode(r), r.name) && id != ""
    ensures Run(Encode(Repointed(Decode(r), id)), steps[id := Kept(DefinitionOf(Decode(r)))]) == Run(r, steps) <==>
      Plain(r) && r.scatter.None?
  {
    assert r.with + map[] == r.with;
  }

  /** Converting a step keeps what the pipeline does, step by step, exactly when the step has no scatter
      and no step uses what the command line has no field for. */
  lemma ConvertPreservesExactly(refs: seq<Ref>, steps: map<string, StepDef>, idx: nat, name: string, id: string)
    requires FirstInline(DecodeAll(refs), name, idx) && id != "" && !Refers(refs, id)
    ensures var cli := DecodeAll(refs);
      SameSteps(refs, steps, EncodeAll(cli[idx := Repointed(cli[idx], id)]), steps[id := Kept(DefinitionOf(cli[idx]))]) <==>
        Plain(refs[idx]) && refs[idx].scatter.None? && OthersPlain(refs, steps, idx)
  {
    var cli := DecodeAll(refs);
    var after, now := EncodeAll(cli[idx := Repointed(cli[idx], id)]), steps[id := Kept(DefinitionOf(cli[idx]))];
    ConvertedStep(refs[idx], steps, id);
    forall i | 0 <= i < |refs| && i != idx
      ensures Run(after[i], now) == Run(refs[i], steps) <==> refs[i].approval.Some? || Run(refs[i], steps).None? || Plain(refs[i])
    {
      assert refs[i].stepId != id;
      NewStepUnseen(Encode(Decode(refs[i])), steps, id, Kept(DefinitionOf(cli[idx])));
      RewriteExactly(refs[i], steps);
    }
    assert after[idx] == Encode(Repointed(Decode(refs[idx]), id));
  }

  /** Localizing a step keeps what the pipeline does exactly when the reference has no scatter and no
      step uses what the command line has no field for; a timeout on the reference is never in force. */
  lemma LocalizePreservesExactly(refs: seq<Ref>, steps: map<string, StepDef>, idx: nat, name: string)
    requires FirstStored(DecodeAll(refs), steps, name, idx) && steps[refs[idx].stepId].action != ""
    ensures var cli := DecodeAll(refs);
      SameSteps(refs, steps, EncodeAll(cli[idx := Localized(cli[idx], steps[refs[idx].stepId])]), steps) <==>
        Plain(refs[idx]) && refs[idx].scatter.None? && OthersPlain(refs, steps, idx)
  {
    var cli := DecodeAll(refs);
    var after := EncodeAll(cli[idx := Localized(cli[idx], steps[refs[idx].stepId])]);
    forall i | 0 <= i < |refs| && i != idx
      ensures Run(after[i], steps) == Run(refs[i], steps) <==> refs[i].approval.Some? || Run(refs[i], steps).None? || Plain(refs[i])
    {
      RewriteExactly(refs[i], steps);
    }
    assert after[idx] == Encode(Localized(Decode(refs[idx]), steps[refs[idx].stepId]));
  }

  /** A pipeline that refers to no such step is not affected by a step being stored. */
  lemma OtherPipelinesUnchanged(refs: seq<Ref>, steps: map<string, StepDef>, id: string, d: StepDef)
    requires !Refers(refs, id)
    ensures SameSteps(refs, steps, refs, steps[id := d])
  {
    forall i | 0 <= i < |refs| ensures Run(refs[i], steps[id := d]) == Run(refs[i], steps) {
      assert refs[i].stepId != id;
      NewStepUnseen(refs[i], steps, id, d);
    }
  }

  /** Localizing what was just converted gives the inline step back, with the default timeout written
      out if it had none, and without its scatter. */
  lemma LocalizeUndoesConvert(r: CliRef, id: string)
    requires r.stepId == "" && r.approval.None?
    ensures Localized(Repointed(r, id), Kept(DefinitionOf(r))) ==
      r.(scatter := None, timeout := if r.timeout == 0 then DEFAULT_TIMEOUT else r.timeout)
  {
    assert r.with + map[] == r.with;
  }

  // ---- What the server makes of a reference, in its own terms. ----

  /** A gate waits under its name, or as "approval". */
  lemma GateRuns(r: Ref, steps: map<string, StepDef>)
    requires r.approval.Some?
    ensures r.name != "" ==> Run(r, steps) == Some(Gate(r.name, r.approval.value))
    ensures r.name == "" ==> Run(r, steps) == Some(Gate("approval", r.approval.value))
  {
  }

  /** A step is given the seconds it asks for, thirty when it asks for none and an hour when it asks for more. */
  lemma SecondsGiven(r: Ref, steps: map<string, StepDef>)
    requires Run(r, steps).Some? && Run(r, steps).value.Step?
    ensures var asked := if r.stepId == "" && r.action != "" then r.timeout else steps[r.stepId].timeout;
      && (1 <= asked <= 3600 ==> Run(r, steps).value.timeout == asked)
      && (asked <= 0 ==> Run(r, steps).value.timeout == 30)
      && (asked > 3600 ==> Run(r, steps).value.timeout == 3600)
  {
  }

  /** A stored reference runs its step's action under its own name, or the step's, with its own settings over the
      step's; without the step it does not run. */
  lemma StoredRefRuns(r: Ref, steps: map<string, StepDef>)
    requires r.approval == None && r.stepId != ""
    ensures r.stepId !in steps ==> Run(r, steps) == None
    ensures r.stepId in steps ==>
      && Run(r, steps).Some? && Run(r, steps).value.Step?
      && var s, d := Run(r, steps).value, steps[r.stepId];
         && s.action == d.action && (r.name != "" ==> s.name == r.name) && (r.name == "" ==> s.name == d.name)
         && (forall k :: k in r.with ==> k in s.with && s.with[k] == r.with[k])
         && (forall k :: k in d.with && k !in r.with ==> k in s.with && s.with[k] == d.with[k])
         && s.with.Keys == d.with.Keys + r.with.Keys
         && s.matrix == r.matrix && s.scatter == r.scatter && s.mapId == r.mapId && s.loopId == r.loopId
         && s.allowUnresolved == r.allowUnresolved && s.permissions == r.permissions
  {
  }
}
