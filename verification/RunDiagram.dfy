/** The run diagram of a compiled pipeline draws one box per stage of its text. */
module RunDiagram {
  import opened Options
  import opened Ranks
  import opened StageOrder
  import opened RunStages

  lemma {:induction false} StagesMonotone(groups: Groups, i: nat, j: nat)
    requires i <= j < |Flat(groups)|
    ensures StageAt(groups, i) <= StageAt(groups, j)
  {
    if i >= |groups[0]| {
      StagesMonotone(groups[1..], i - |groups[0]|, j - |groups[0]|);
    }
  }

  /** The definition's steps with the ranks of its routes. */
  predicate RankedBy(def: seq<DefStep>, names: seq<string>, ranks: seq<nat>) {
    |def| == |names| == |ranks| && forall k :: 0 <= k < |def| ==> def[k] == DefStep(names[k], Some(ranks[k]))
  }

  /** A compiled pipeline's steps are ranked by their stage. */
  lemma CompiledDefRanked(groups: Groups, routes: seq<Route>, ranks: Option<seq<nat>>, def: seq<DefStep>)
    requires Staged(groups, routes) && |groups| > 1 && StageRanks(Flat(groups), routes, ranks)
    requires ranks.Some? && RankedBy(def, Flat(groups), ranks.value)
    ensures RankedDef(def) && forall k :: 0 <= k < |def| ==> def[k].stage == Some(StageAt(groups, k))
  {
    RanksAreStages(groups, routes, ranks);
    forall j, k | 0 <= j < k < |def| ensures def[j].stage.value <= def[k].stage.value {
      StagesMonotone(groups, j, k);
    }
  }

  /** For a run of an unchanged pipeline of two or more stages, recorded or still to come, two runs are
      drawn in one box exactly when their steps are in one stage, and boxes follow the stage order. */
  lemma BoxesAreStages(groups: Groups, routes: seq<Route>, ranks: Option<seq<nat>>, def: seq<DefStep>, runId: string,
                       runs: seq<StepRun>, filled: seq<StepRun>, batches: seq<seq<StepRun>>,
                       p: nat, q: nat, x: StepRun, y: StepRun)
    requires Staged(groups, routes) && |groups| > 1 && StageRanks(Flat(groups), routes, ranks)
    requires ranks.Some? && RankedBy(def, Flat(groups), ranks.value)
    requires (forall r :: r in runs ==> Named(r, def)) && Filled(runId, Annotated(runs, def), def, filled)
    requires Batched(filled, batches) && p <= q < |batches| && x in batches[p] && y in batches[q]
    ensures 0 <= x.stepIndex < |def| && 0 <= y.stepIndex < |def|
    ensures p == q <==> StageAt(groups, x.stepIndex) == StageAt(groups, y.stepIndex)
    ensures p < q <==> StageAt(groups, x.stepIndex) < StageAt(groups, y.stepIndex)
  {
    CompiledDefRanked(groups, routes, ranks, def);
    FilledRanked(runId, runs, def, filled);
    BoxesAreRanks(filled, batches, p, q);
    assert x in filled && y in filled;
  }
}
