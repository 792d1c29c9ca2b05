/** A run's recorded steps completed with what is still to come, and grouped into stages for display. */
module RunStages {
  import opened Options
  import opened Numerals

  datatype StepRun = StepRun(id: string, runId: string, stepIndex: int, name: string, stage: Option<int>, status: string)

  /** A step of the pipeline's definition, with its rank when it could be derived. */
  datatype DefStep = DefStep(name: string, stage: Option<int>)

  predicate Active(status: string) { status == "running" || status == "pending" || status == "awaiting_approval" }

  // ---- Lists ordered by step. ----

  predicate Sorted(s: seq<StepRun>) { forall i, j :: 0 <= i < j < |s| ==> s[i].stepIndex <= s[j].stepIndex }

  /** The runs of step k, in the order of the list. */
  function AtIndex(s: seq<StepRun>, k: int): seq<StepRun> {
    if s == [] then []
    else AtIndex(s[..|s| - 1], k) + if s[|s| - 1].stepIndex == k then [s[|s| - 1]] else []
  }

  lemma {:induction false} AtIndexJoined(a: seq<StepRun>, b: seq<StepRun>, k: int)
    ensures AtIndex(a + b, k) == AtIndex(a, k) + AtIndex(b, k)
  {
    if b == [] {
      assert a + b == a;
    } else {
      var n := |b| - 1;
      assert (a + b)[..|a + b| - 1] == a + b[..n];
      AtIndexJoined(a, b[..n], k);
    }
  }

  lemma {:induction false} AtIndexMembers(s: seq<StepRun>, k: int)
    ensures forall r :: r in AtIndex(s, k) <==> r in s && r.stepIndex == k
    ensures AtIndex(s, k) == [] <==> forall r :: r in s ==> r.stepIndex != k
  {
    if s != [] {
      AtIndexMembers(s[..|s| - 1], k);
      assert s == s[..|s| - 1] + [s[|s| - 1]];
    }
  }

  /** An ordered list is determined by the runs of each step in their order. */
  lemma {:induction false} OrderedByParts(a: seq<StepRun>, b: seq<StepRun>)
    requires Sorted(a) && Sorted(b) && forall k :: AtIndex(a, k) == AtIndex(b, k)
    ensures a == b
    decreases |a|
  {
    if a == [] || b == [] {
      if a != [] { NotEmptyAt(a, b); }
      if b != [] { NotEmptyAt(b, a); }
    } else {
      var x, y := a[|a| - 1], b[|b| - 1];
      LastIndexBounds(a, b);
      LastIndexBounds(b, a);
      var before, after := a[..|a| - 1], b[..|b| - 1];
      forall k ensures AtIndex(before, k) == AtIndex(after, k) && x == y {
        LastDropped(a, b, k);
        LastDropped(a, b, x.stepIndex);
      }
      OrderedByParts(before, after);
      assert a == a[..|a| - 1] + [x] && b == b[..|b| - 1] + [y];
    }
  }

  lemma LastDropped(a: seq<StepRun>, b: seq<StepRun>, k: int)
    requires a != [] && b != [] && a[|a| - 1].stepIndex == b[|b| - 1].stepIndex && AtIndex(a, k) == AtIndex(b, k)
    ensures AtIndex(a[..|a| - 1], k) == AtIndex(b[..|b| - 1], k)
    ensures k == a[|a| - 1].stepIndex ==> a[|a| - 1] == b[|b| - 1]
  {
    var before, after := AtIndex(a[..|a| - 1], k), AtIndex(b[..|b| - 1], k);
    if k == a[|a| - 1].stepIndex {
      SnocEqual(before, a[|a| - 1], after, b[|b| - 1]);
    } else {
      assert before + [] == before && after + [] == after;
    }
  }

  lemma SnocEqual(a: seq<StepRun>, x: StepRun, b: seq<StepRun>, y: StepRun)
    requires a + [x] == b + [y]
    ensures a == b && x == y
  {
    assert (a + [x])[|a|] == x && (b + [y])[|b|] == y;
    assert (a + [x])[..|a|] == a && (b + [y])[..|b|] == b;
  }

  lemma NotEmptyAt(a: seq<StepRun>, b: seq<StepRun>)
    requires a != [] && forall k :: AtIndex(a, k) == AtIndex(b, k)
    ensures a[|a| - 1] in b
  {
    var x := a[|a| - 1];
    AtIndexMembers(a, x.stepIndex);
    AtIndexMembers(b, x.stepIndex);
    assert AtIndex(a, x.stepIndex) == AtIndex(b, x.stepIndex);
  }

  lemma LastIndexBounds(a: seq<StepRun>, b: seq<StepRun>)
    requires a != [] && b != [] && Sorted(b) && forall k :: AtIndex(a, k) == AtIndex(b, k)
    ensures a[|a| - 1].stepIndex <= b[|b| - 1].stepIndex
  {
    NotEmptyAt(a, b);
  }

  /** A stable sort by step. */
  method SortStable(s: seq<StepRun>) returns (t: seq<StepRun>)
    ensures Sorted(t) && forall k :: AtIndex(t, k) == AtIndex(s, k)
  {
    t := [];
    for i := 0 to |s|
      invariant Sorted(t) && forall k :: AtIndex(t, k) == AtIndex(s[..i], k)
    {
      var j := |t|;
      while j > 0 && t[j - 1].stepIndex > s[i].stepIndex
        invariant 0 <= j <= |t| && forall m :: j <= m < |t| ==> t[m].stepIndex > s[i].stepIndex
      {
        j := j - 1;
      }
      assert s[..i + 1][..i] == s[..i];
      ghost var longer := t[..j] + [s[i]] + t[j..];
      forall k ensures AtIndex(longer, k) == AtIndex(s[..i + 1], k) {
        InsertedAt(t, s[i], j, k);
      }
      InsertedSorted(t, s[i], j);
      t := t[..j] + [s[i]] + t[j..];
    }
    assert s[..|s|] == s;
  }

  lemma InsertedSorted(t: seq<StepRun>, x: StepRun, j: nat)
    requires Sorted(t) && j <= |t| && forall m :: j <= m < |t| ==> t[m].stepIndex > x.stepIndex
    requires j > 0 ==> t[j - 1].stepIndex <= x.stepIndex
    ensures Sorted(t[..j] + [x] + t[j..])
  {
  }

  lemma InsertedAt(t: seq<StepRun>, x: StepRun, j: nat, k: int)
    requires j <= |t| && forall m :: j <= m < |t| ==> t[m].stepIndex > x.stepIndex
    ensures AtIndex(t[..j] + [x] + t[j..], k) == AtIndex(t, k) + if x.stepIndex == k then [x] else []
  {
    AtIndexJoined(t[..j] + [x], t[j..], k);
    AtIndexJoined(t[..j], [x], k);
    assert t == t[..j] + t[j..];
    AtIndexJoined(t[..j], t[j..], k);
    assert [x][..0] == [];
    if x.stepIndex == k {
      AtIndexMembers(t[j..], k);
    }
  }

  // ---- Filling in what is pending. ----

  function Pending(runId: string, k: int, step: DefStep): StepRun {
    StepRun("", runId, k, step.name, step.stage, "pending")
  }

  /** The runs of step k once the list is filled: the recorded ones, or one that is pending. */
  function FilledAt(runId: string, runs: seq<StepRun>, def: seq<DefStep>, k: int): seq<StepRun> {
    if AtIndex(runs, k) == [] && 0 <= k < |def| then [Pending(runId, k, def[k])] else AtIndex(runs, k)
  }

  /** In step order, with every step of the definition, the recorded runs in their order, and nothing else. */
  ghost predicate Filled(runId: string, runs: seq<StepRun>, def: seq<DefStep>, filled: seq<StepRun>) {
    Sorted(filled) && forall k :: AtIndex(filled, k) == FilledAt(runId, runs, def, k)
  }

  class RunFull {
    const runId: string
    const status: string
    var stepRuns: seq<StepRun>

    constructor (runId: string, status: string, stepRuns: seq<StepRun>)
      ensures this.runId == runId && this.status == status && this.stepRuns == stepRuns
    {
      this.runId, this.status, this.stepRuns := runId, status, stepRuns;
    }

    /** Appends a pending run for every step of the definition that has none. */
    method AppendPending(def: seq<DefStep>)
      modifies this`stepRuns
      ensures forall k :: AtIndex(stepRuns, k) == FilledAt(runId, old(stepRuns), def, k)
    {
      var seen := set r | r in stepRuns :: r.stepIndex;
      ghost var before := stepRuns;
      forall k ensures k in seen <==> AtIndex(before, k) != [] {
        AtIndexMembers(before, k);
      }
      for i := 0 to |def|
        invariant forall k :: AtIndex(stepRuns, k) == FilledAt(runId, before, def[..i], k)
      {
        forall k ensures AtIndex(stepRuns + [Pending(runId, i, def[i])], k) ==
          AtIndex(stepRuns, k) + if k == i then [Pending(runId, i, def[i])] else []
        {
          AtIndexJoined(stepRuns, [Pending(runId, i, def[i])], k);
          assert [Pending(runId, i, def[i])][..0] == [];
        }
        if i !in seen {
          stepRuns := stepRuns + [Pending(runId, i, def[i])];
        }
      }
      assert def[..|def|] == def;
    }

    method FillPendingSteps(def: seq<DefStep>)
      modifies this`stepRuns
      ensures def == [] || !Active(status) ==> stepRuns == old(stepRuns)
      ensures status != "running" && status != "pending" && status != "awaiting_approval" ==> stepRuns == old(stepRuns)
      ensures def != [] && (status == "running" || status == "pending" || status == "awaiting_approval") ==>
        forall k :: 0 <= k < |def| ==> AtIndex(stepRuns, k) != []
      ensures def != [] && Active(status) ==> Filled(runId, old(stepRuns), def, stepRuns)
    {
      if |def| == 0 {
        return;
      }
      if !Active(status) {
        return;
      }
      ghost var before := stepRuns;
      AppendPending(def);
      stepRuns := SortStable(stepRuns);
      FilledCovers(runId, before, def, stepRuns);
    }

    /** Copies ranks from the definition to the runs whose step it still names, then fills. */
    method AnnotateStages(steps: seq<DefStep>)
      modifies this`stepRuns
      ensures steps == [] || !Active(status) ==> stepRuns == Annotated(old(stepRuns), steps)
      ensures steps != [] && Active(status) ==> Filled(runId, Annotated(old(stepRuns), steps), steps, stepRuns)
    {
      ghost var before := stepRuns;
      for i := 0 to |stepRuns|
        invariant |stepRuns| == |before|
        invariant forall j :: 0 <= j < |before| ==> stepRuns[j] == if j < i then Annotated(before, steps)[j] else before[j]
      {
        var run := stepRuns[i];
        if 0 <= run.stepIndex < |steps| {
          var ds := steps[run.stepIndex];
          if ds.name == "" || ds.name == run.name {
            stepRuns := stepRuns[i := run.(stage := ds.stage)];
          }
        }
      }
      assert stepRuns == Annotated(before, steps);
      FillPendingSteps(steps);
    }
  }

  /** The definition still has the run's step under its name, or names none there. */
  predicate Named(run: StepRun, steps: seq<DefStep>) {
    0 <= run.stepIndex < |steps| && (steps[run.stepIndex].name == "" || steps[run.stepIndex].name == run.name)
  }

  function Annotated(runs: seq<StepRun>, steps: seq<DefStep>): seq<StepRun> {
    seq(|runs|, i requires 0 <= i < |runs| =>
      if Named(runs[i], steps) then runs[i].(stage := steps[runs[i].stepIndex].stage) else runs[i])
  }

  // ---- What filling promises. ----

  /** The filled list is the only one that meets its contract. */
  lemma FilledUnique(runId: string, runs: seq<StepRun>, def: seq<DefStep>, a: seq<StepRun>, b: seq<StepRun>)
    requires Filled(runId, runs, def, a) && Filled(runId, runs, def, b)
    ensures a == b
  {
    OrderedByParts(a, b);
  }

  /** Every step of the definition is shown, every recorded run is, and whatever else is shown is the
      pending entry of a step without one. */
  lemma FilledCovers(runId: string, runs: seq<StepRun>, def: seq<DefStep>, filled: seq<StepRun>)
    requires Filled(runId, runs, def, filled)
    ensures forall k :: 0 <= k < |def| ==> AtIndex(filled, k) != []
    ensures forall r :: r in runs ==> r in filled
    ensures forall r :: r in filled && r !in runs ==>
      0 <= r.stepIndex < |def| && r == Pending(runId, r.stepIndex, def[r.stepIndex]) && AtIndex(runs, r.stepIndex) == []
    ensures forall r :: r in filled && r !in runs ==>
      && 0 <= r.stepIndex < |def|
      && r.id == "" && r.runId == runId && r.status == "pending"
      && r.name == def[r.stepIndex].name && r.stage == def[r.stepIndex].stage
  {
    forall r | r in runs ensures r in filled {
      AtIndexMembers(runs, r.stepIndex);
      AtIndexMembers(filled, r.stepIndex);
      assert AtIndex(filled, r.stepIndex) == FilledAt(runId, runs, def, r.stepIndex);
    }
    forall r | r in filled && r !in runs
      ensures 0 <= r.stepIndex < |def| && r == Pending(runId, r.stepIndex, def[r.stepIndex]) && AtIndex(runs, r.stepIndex) == []
    {
      AtIndexMembers(runs, r.stepIndex);
      AtIndexMembers(filled, r.stepIndex);
      assert AtIndex(filled, r.stepIndex) == FilledAt(runId, runs, def, r.stepIndex);
    }
  }

  lemma {:induction false} CountAtIndex(s: seq<StepRun>, r: StepRun)
    ensures multiset(s)[r] == multiset(AtIndex(s, r.stepIndex))[r]
  {
    if s != [] {
      var n := |s| - 1;
      CountAtIndex(s[..n], r);
      assert s == s[..n] + [s[n]];
    }
  }

  /** No recorded run is lost, doubled or changed. */
  lemma FilledKeepsRuns(runId: string, runs: seq<StepRun>, def: seq<DefStep>, filled: seq<StepRun>, r: StepRun)
    requires Filled(runId, runs, def, filled) && r in runs
    ensures multiset(filled)[r] == multiset(runs)[r]
  {
    CountAtIndex(filled, r);
    CountAtIndex(runs, r);
    AtIndexMembers(runs, r.stepIndex);
    assert AtIndex(filled, r.stepIndex) == FilledAt(runId, runs, def, r.stepIndex);
  }

  /** Filling again, on the next refresh, changes nothing. */
  lemma FillTwice(runId: string, runs: seq<StepRun>, def: seq<DefStep>, filled: seq<StepRun>, again: seq<StepRun>)
    requires Filled(runId, runs, def, filled) && Filled(runId, filled, def, again)
    ensures again == filled
  {
    OrderedByParts(again, filled);
  }

  // ---- Stages. ----

  predicate SameStage(a: StepRun, b: StepRun) {
    (a.stage.Some? && b.stage.Some? && a.stage.value == b.stage.value) || a.stepIndex == b.stepIndex
  }

  predicate Grouped(batch: seq<StepRun>) { batch != [] && forall i :: 0 <= i < |batch| ==> SameStage(batch[0], batch[i]) }

  function Concat(batches: seq<seq<StepRun>>): seq<StepRun> {
    if batches == [] then [] else batches[0] + Concat(batches[1..])
  }

  /** The runs cut into stages as long as they can be. */
  predicate Batched(runs: seq<StepRun>, batches: seq<seq<StepRun>>) {
    && Concat(batches) == runs
    && (forall i :: 0 <= i < |batches| ==> Grouped(batches[i]))
    && forall i :: 0 <= i < |batches| - 1 ==> !SameStage(batches[i][0], batches[i + 1][0])
  }

  /** The end of the stage that begins at i. */
  method StageExtent(runs: seq<StepRun>, i: nat) returns (j: nat)
    requires i < |runs|
    ensures i < j <= |runs| && Grouped(runs[i..j]) && (j < |runs| ==> !SameStage(runs[i], runs[j]))
  {
    j := i + 1;
    while j < |runs| && SameStage(runs[i], runs[j])
      invariant i < j <= |runs| && forall k :: i <= k < j ==> SameStage(runs[i], runs[k])
    {
      j := j + 1;
    }
  }

  lemma {:induction false} ConcatSnoc(batches: seq<seq<StepRun>>, last: seq<StepRun>)
    ensures Concat(batches + [last]) == Concat(batches) + last
  {
    if batches == [] {
      assert Concat([last]) == last + Concat([last][1..]);
    } else {
      var longer := batches + [last];
      assert longer[0] == batches[0] && longer[1..] == batches[1..] + [last];
      ConcatSnoc(batches[1..], last);
      Associative(batches[0], Concat(batches[1..]), last);
    }
  }

  method RunBatches(runs: seq<StepRun>) returns (batches: seq<seq<StepRun>>)
    ensures Batched(runs, batches)
  {
    batches := [];
    var i := 0;
    while i < |runs|
      invariant 0 <= i <= |runs| && Batched(runs[..i], batches)
      invariant batches != [] && i < |runs| ==> !SameStage(batches[|batches| - 1][0], runs[i])
    {
      var j := StageExtent(runs, i);
      ConcatSnoc(batches, runs[i..j]);
      assert runs[..i] + runs[i..j] == runs[..j];
      batches := batches + [runs[i..j]];
      i := j;
    }
    assert runs[..i] == runs;
  }

  /** There is one way to cut runs into such stages. */
  lemma {:induction false} BatchedUnique(runs: seq<StepRun>, a: seq<seq<StepRun>>, b: seq<seq<StepRun>>)
    requires Batched(runs, a) && Batched(runs, b)
    ensures a == b
    decreases |a|
  {
    if a != [] && b != [] {
      FirstEnds(runs, a, b);
      FirstEnds(runs, b, a);
      assert a[0] == runs[..|a[0]|] && b[0] == runs[..|b[0]|];
      assert Concat(a[1..]) == runs[|a[0]|..] && Concat(b[1..]) == runs[|b[0]|..];
      BatchedUnique(runs[|a[0]|..], a[1..], b[1..]);
      assert a == [a[0]] + a[1..] && b == [b[0]] + b[1..];
    }
  }

  /** The first stage is a beginning of the runs, and the run after it is of another stage. */
  lemma FirstStage(runs: seq<StepRun>, b: seq<seq<StepRun>>)
    requires Batched(runs, b) && b != []
    ensures |b[0]| <= |runs| && runs[..|b[0]|] == b[0] && (|b[0]| < |runs| ==> !SameStage(runs[0], runs[|b[0]|]))
  {
    assert runs == b[0] + Concat(b[1..]);
    if |b| > 1 {
      assert !SameStage(b[0][0], b[0 + 1][0]);
      assert Concat(b[1..]) == b[1] + Concat(b[1..][1..]);
      assert runs[|b[0]|] == b[1][0];
    }
  }

  lemma FirstEnds(runs: seq<StepRun>, a: seq<seq<StepRun>>, b: seq<seq<StepRun>>)
    requires Batched(runs, a) && Batched(runs, b) && a != [] && b != []
    ensures |a[0]| <= |b[0]|
  {
    FirstStage(runs, a);
    FirstStage(runs, b);
    forall i | 0 <= i < |a[0]| ensures SameStage(runs[0], runs[i]) {
      assert runs[i] == a[0][i];
    }
  }

  // ---- Stages and ranks. ----

  /** Every run has a rank, ranks do not fall along the list, and runs of one step have the same. */
  predicate Ranked(runs: seq<StepRun>) {
    && (forall r :: r in runs ==> r.stage.Some?)
    && forall i, j :: 0 <= i < j < |runs| ==>
         runs[i].stage.value <= runs[j].stage.value && (runs[i].stepIndex == runs[j].stepIndex ==> runs[i].stage == runs[j].stage)
  }

  /** A definition whose ranks are known and do not fall along the steps, as a compiled pipeline's are. */
  predicate RankedDef(def: seq<DefStep>) {
    && (forall k :: 0 <= k < |def| ==> def[k].stage.Some?)
    && forall j, k :: 0 <= j < k < |def| ==> def[j].stage.value <= def[k].stage.value
  }

  lemma AnnotatedRanks(runs: seq<StepRun>, def: seq<DefStep>)
    requires forall r :: r in runs ==> Named(r, def)
    ensures forall r :: r in Annotated(runs, def) ==> 0 <= r.stepIndex < |def| && r.stage == def[r.stepIndex].stage
  {
    forall r | r in Annotated(runs, def) ensures 0 <= r.stepIndex < |def| && r.stage == def[r.stepIndex].stage {
      var i :| 0 <= i < |runs| && Annotated(runs, def)[i] == r;
      assert runs[i] in runs;
    }
  }

  /** The runs of a pipeline that has not changed since are ranked by their steps once filled. */
  lemma FilledRanked(runId: string, runs: seq<StepRun>, def: seq<DefStep>, filled: seq<StepRun>)
    requires RankedDef(def) && (forall r :: r in runs ==> Named(r, def)) && Filled(runId, Annotated(runs, def), def, filled)
    ensures Ranked(filled)
    ensures forall r :: r in filled ==> 0 <= r.stepIndex < |def| && r.stage == def[r.stepIndex].stage
  {
    AnnotatedRanks(runs, def);
    FilledCovers(runId, Annotated(runs, def), def, filled);
    forall r | r in filled ensures 0 <= r.stepIndex < |def| && r.stage == def[r.stepIndex].stage {
      if r !in Annotated(runs, def) { assert r == Pending(runId, r.stepIndex, def[r.stepIndex]); }
    }
    forall i, j | 0 <= i < j < |filled|
      ensures filled[i].stage.value <= filled[j].stage.value && (filled[i].stepIndex == filled[j].stepIndex ==> filled[i].stage == filled[j].stage)
    {
      assert filled[i] in filled && filled[j] in filled;
    }
  }

  /** In ranked runs the boxes of the diagram are the ranks: one box holds one rank, and later boxes
      hold higher ones. */
  lemma {:induction false} BoxesAreRanks(runs: seq<StepRun>, batches: seq<seq<StepRun>>, p: nat, q: nat)
    requires Ranked(runs) && Batched(runs, batches) && p <= q < |batches|
    ensures forall x, y :: x in batches[p] && y in batches[q] ==>
      (x in runs && y in runs && if p == q then x.stage == y.stage else x.stage.value < y.stage.value)
    decreases |batches|
  {
    if p > 0 {
      LaterBoxes(runs, batches);
      BoxesAreRanks(runs[|batches[0]|..], batches[1..], p - 1, q - 1);
    } else {
      FirstBox(runs, batches);
      if q > 0 {
        HigherAfter(runs, batches);
        forall y | y in batches[q] ensures y in runs && y.stage.value > runs[0].stage.value {
          ConcatMembers(batches[1..], q - 1, y);
        }
      }
    }
  }

  lemma FirstBox(runs: seq<StepRun>, batches: seq<seq<StepRun>>)
    requires Ranked(runs) && Batched(runs, batches) && batches != []
    ensures runs != [] && forall x :: x in batches[0] ==> x in runs && x.stage == runs[0].stage
  {
    FirstStage(runs, batches);
    forall x | x in batches[0] ensures x in runs && x.stage == runs[0].stage {
      var i :| 0 <= i < |batches[0]| && batches[0][i] == x;
      assert runs[i] == x && SameStage(batches[0][0], batches[0][i]);
    }
  }

  lemma HigherAfter(runs: seq<StepRun>, batches: seq<seq<StepRun>>)
    requires Ranked(runs) && Batched(runs, batches) && batches != []
    ensures runs != [] && runs[0].stage.Some?
    ensures forall y :: y in Concat(batches[1..]) ==> y in runs && y.stage.value > runs[0].stage.value
  {
    var n := |batches[0]|;
    FirstStage(runs, batches);
    assert runs[0] in runs && runs == batches[0] + Concat(batches[1..]);
    forall y | y in Concat(batches[1..]) ensures y in runs && y.stage.value > runs[0].stage.value {
      var j :| 0 <= j < |Concat(batches[1..])| && Concat(batches[1..])[j] == y;
      assert runs[n + j] == y && runs[n] in runs;
    }
  }

  lemma LaterBoxes(runs: seq<StepRun>, batches: seq<seq<StepRun>>)
    requires Ranked(runs) && Batched(runs, batches) && batches != []
    ensures |batches[0]| <= |runs| && Ranked(runs[|batches[0]|..]) && Batched(runs[|batches[0]|..], batches[1..])
    ensures forall x :: x in runs[|batches[0]|..] ==> x in runs
  {
    FirstStage(runs, batches);
    assert runs == batches[0] + Concat(batches[1..]);
    assert Concat(batches[1..]) == runs[|batches[0]|..];
  }

  lemma {:induction false} ConcatMembers(batches: seq<seq<StepRun>>, q: nat, y: StepRun)
    requires q < |batches| && y in batches[q]
    ensures y in Concat(batches)
  {
    if q > 0 { ConcatMembers(batches[1..], q - 1, y); }
  }

  // ---- Table rows. ----

  /** The cells of a row that depend on the grouping, and the run's status. */
  datatype Row = Row(num: string, name: string, status: string)

  predicate IsMatrix(batch: seq<StepRun>) {
    |batch| >= 2 && forall k :: 0 <= k < |batch| ==> batch[k].stepIndex == batch[0].stepIndex
  }

  method BatchIsMatrix(batch: seq<StepRun>) returns (matrix: bool)
    ensures matrix <==> IsMatrix(batch)
  {
    if |batch| < 2 {
      return false;
    }
    for i := 1 to |batch|
      invariant forall k :: 0 <= k < i ==> batch[k].stepIndex == batch[0].stepIndex
    {
      if batch[i].stepIndex != batch[0].stepIndex {
        return false;
      }
    }
    return true;
  }

  const PARALLEL := "\U{2225} "
  const MATRIX := "\U{229E} "

  /** What stands before the name of the k-th run of a stage. */
  function Bracket(batch: seq<StepRun>, k: nat): string {
    if |batch| == 1 then ""
    else if k == 0 then "\U{250C} " + if IsMatrix(batch) then MATRIX else PARALLEL
    else if k == |batch| - 1 then "\U{2514} "
    else "\U{251C} "
  }

  function RowsOf(batch: seq<StepRun>, stage: nat): seq<Row> {
    seq(|batch|, k requires 0 <= k < |batch| =>
      Row(if k == 0 then FormatNat(stage) else "", Bracket(batch, k) + batch[k].name, batch[k].status))
  }

  function AllRows(batches: seq<seq<StepRun>>, stage: nat): seq<Row> {
    if batches == [] then [] else RowsOf(batches[0], stage) + AllRows(batches[1..], stage + 1)
  }

  lemma {:induction false} AllRowsSnoc(batches: seq<seq<StepRun>>, last: seq<StepRun>, stage: nat)
    ensures AllRows(batches + [last], stage) == AllRows(batches, stage) + RowsOf(last, stage + |batches|)
  {
    if batches == [] {
      assert AllRows([last], stage) == RowsOf(last, stage) + AllRows([last][1..], stage + 1);
    } else {
      var longer := batches + [last];
      assert longer[0] == batches[0] && longer[1..] == batches[1..] + [last];
      AllRowsSnoc(batches[1..], last, stage + 1);
      Associative(RowsOf(batches[0], stage), AllRows(batches[1..], stage + 1), RowsOf(last, stage + |batches|));
    }
  }

  lemma Associative<T>(a: seq<T>, b: seq<T>, c: seq<T>)
    ensures (a + b) + c == a + (b + c)
  {
  }

  method BatchRows(batch: seq<StepRun>, stage: nat) returns (rows: seq<Row>)
    requires batch != []
    ensures rows == RowsOf(batch, stage)
  {
    if |batch| == 1 {
      rows := [Row(FormatNat(stage), batch[0].name, batch[0].status)];
      assert Bracket(batch, 0) + batch[0].name == batch[0].name;
      return;
    }
    var mark := PARALLEL;
    var matrix := BatchIsMatrix(batch);
    if matrix {
      mark := MATRIX;
    }
    rows := [];
    for k := 0 to |batch|
      invariant rows == RowsOf(batch, stage)[..k]
    {
      var glyph, num := "\U{251C} ", "";
      if k == 0 {
        glyph, num := "\U{250C} " + mark, FormatNat(stage);
      } else if k == |batch| - 1 {
        glyph := "\U{2514} ";
      }
      rows := rows + [Row(num, glyph + batch[k].name, batch[k].status)];
    }
  }

  method StepRunRows(runs: seq<StepRun>) returns (rows: seq<Row>, ghost batches: seq<seq<StepRun>>)
    ensures Batched(runs, batches) && rows == AllRows(batches, 1)
  {
    rows, batches := [], [];
    var stage, i := 0, 0;
    while i < |runs|
      invariant 0 <= i <= |runs| && Batched(runs[..i], batches) && stage == |batches|
      invariant batches != [] && i < |runs| ==> !SameStage(batches[|batches| - 1][0], runs[i])
      invariant rows == AllRows(batches, 1)
    {
      stage := stage + 1;
      var j := StageExtent(runs, i);
      var more := BatchRows(runs[i..j], stage);
      ConcatSnoc(batches, runs[i..j]);
      AllRowsSnoc(batches, runs[i..j], 1);
      assert runs[..i] + runs[i..j] == runs[..j];
      rows := rows + more;
      batches := batches + [runs[i..j]];
      i := j;
    }
    assert runs[..i] == runs;
  }

  /** The row shows the run's status, and its name after whatever bracket. */
  predicate RowFor(row: Row, run: StepRun) {
    row.status == run.status && |run.name| <= |row.name| && row.name[|row.name| - |run.name|..] == run.name
  }

  /** The rows match the runs one to one, in order, and a row has a number exactly when its run begins a
      stage: the ordinal of that stage. */
  lemma {:induction false} RowsMatchRuns(batches: seq<seq<StepRun>>, stage: nat, i: nat) returns (p: nat)
    requires (forall b :: b in batches ==> b != []) && i < |Concat(batches)|
    ensures |AllRows(batches, stage)| == |Concat(batches)| && p < |batches|
    ensures var row, run := AllRows(batches, stage)[i], Concat(batches)[i];
      && RowFor(row, run) && run in batches[p]
      && (if |Concat(batches[..p])| == i then row.num == FormatNat(stage + p) else row.num == "")
  {
    assert batches[0] in batches;
    var n := |batches[0]|;
    RowsLength(batches, stage);
    if i < n {
      p := 0;
      assert batches[..0] == [];
      FirstRows(batches, stage, i);
    } else {
      assert forall b :: b in batches[1..] ==> b in batches;
      var q := RowsMatchRuns(batches[1..], stage + 1, i - n);
      p := q + 1;
      LaterRows(batches, stage, i, q);
    }
  }

  lemma FirstRows(batches: seq<seq<StepRun>>, stage: nat, i: nat)
    requires batches != [] && i < |batches[0]|
    ensures i < |AllRows(batches, stage)| && i < |Concat(batches)| && Concat(batches)[i] == batches[0][i]
    ensures RowFor(AllRows(batches, stage)[i], batches[0][i])
    ensures AllRows(batches, stage)[i].num == if i == 0 then FormatNat(stage) else ""
  {
    var row := RowsOf(batches[0], stage)[i];
    assert AllRows(batches, stage)[i] == row;
    assert row.name == Bracket(batches[0], i) + batches[0][i].name;
  }

  lemma LaterRows(batches: seq<seq<StepRun>>, stage: nat, i: nat, q: nat)
    requires batches != [] && |batches[0]| <= i < |Concat(batches)| == |AllRows(batches, stage)| && q <= |batches| - 1
    ensures i - |batches[0]| < |Concat(batches[1..])| && i - |batches[0]| < |AllRows(batches[1..], stage + 1)|
    ensures AllRows(batches, stage)[i] == AllRows(batches[1..], stage + 1)[i - |batches[0]|]
    ensures Concat(batches)[i] == Concat(batches[1..])[i - |batches[0]|]
    ensures |Concat(batches[..q + 1])| == |batches[0]| + |Concat(batches[1..][..q])|
  {
    assert batches[..q + 1][0] == batches[0] && batches[..q + 1][1..] == batches[1..][..q];
  }

  lemma {:induction false} RowsLength(batches: seq<seq<StepRun>>, stage: nat)
    ensures |AllRows(batches, stage)| == |Concat(batches)|
  {
    if batches != [] { RowsLength(batches[1..], stage + 1); }
  }

  /** A run takes the rank of the definition's step at its index when that has its name, or none; any other
      run keeps what it had, and nothing else of a run changes. */
  lemma AnnotatedExactly(runs: seq<StepRun>, steps: seq<DefStep>, i: nat)
    requires i < |runs|
    ensures |Annotated(runs, steps)| == |runs|
    ensures var run, after := runs[i], Annotated(runs, steps)[i];
      && after == run.(stage := after.stage)
      && (0 <= run.stepIndex < |steps| && (steps[run.stepIndex].name == run.name || steps[run.stepIndex].name == "") ==>
            after.stage == steps[run.stepIndex].stage)
      && (run.stepIndex < 0 || run.stepIndex >= |steps| ==> after == run)
      && (0 <= run.stepIndex < |steps| && steps[run.stepIndex].name != run.name && steps[run.stepIndex].name != "" ==> after == run)
  {
  }

  /** Two neighbouring runs are in one box when they are of one step or of one rank; where a box ends, its first
      run and the next one are of two steps, and not both of one rank. */
  lemma {:induction false} NeighboursInBoxes(runs: seq<StepRun>, batches: seq<seq<StepRun>>, p: nat)
    requires Batched(runs, batches) && p < |batches|
    ensures batches[p] != []
    ensures forall x :: x in batches[p] ==>
      x.stepIndex == batches[p][0].stepIndex || (x.stage.Some? && x.stage == batches[p][0].stage)
    ensures p + 1 < |batches| ==>
      && batches[p + 1] != []
      && batches[p][0].stepIndex != batches[p + 1][0].stepIndex
      && (batches[p][0].stage.None? || batches[p][0].stage != batches[p + 1][0].stage)
  {
    assert Grouped(batches[p]);
    forall x | x in batches[p] ensures x.stepIndex == batches[p][0].stepIndex || (x.stage.Some? && x.stage == batches[p][0].stage) {
      var k :| 0 <= k < |batches[p]| && batches[p][k] == x;
    }
    if p + 1 < |batches| { assert Grouped(batches[p + 1]) && !SameStage(batches[p][0], batches[p + 1][0]); }
  }

  /** How a box is drawn: a lone run as its name; several as a corner, tees and a corner, the first of them
      marked as a matrix exactly when all are of one step. */
  lemma BoxIsDrawn(batch: seq<StepRun>, stage: nat, k: nat)
    requires k < |batch|
    ensures |RowsOf(batch, stage)| == |batch|
    ensures var row := RowsOf(batch, stage)[k];
      && row.status == batch[k].status
      && (|batch| == 1 ==> row.name == batch[k].name)
      && (|batch| > 1 && k == 0 && (forall r :: r in batch ==> r.stepIndex == batch[0].stepIndex) ==>
            row.name == ['\U{250C}', ' ', '\U{229E}', ' '] + batch[k].name)
      && (|batch| > 1 && k == 0 && (exists r :: r in batch && r.stepIndex != batch[0].stepIndex) ==>
            row.name == ['\U{250C}', ' ', '\U{2225}', ' '] + batch[k].name)
      && (0 < k < |batch| - 1 ==> row.name == ['\U{251C}', ' '] + batch[k].name)
      && (0 < k == |batch| - 1 ==> row.name == ['\U{2514}', ' '] + batch[k].name)
  {
  }
}
