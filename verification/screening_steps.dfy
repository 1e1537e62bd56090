/**
 * The step endpoints of the screening application
 * (screening/app/backend/routers/steps.py): which step is the latest,
 * the guard that lets only the latest step be reset or deleted, the
 * deletion itself, the statistics a finished run records, and the
 * cleaning of the entries it writes out.
 */
module ScreeningSteps {
  import opened Wrappers
  import opened Bib
  import opened ScreeningPipeline

  /** is_latest_step: no step is latest in an empty pipeline; otherwise the last step's id is. */
  predicate IsLatestStep(steps: seq<PipelineStep>, stepId: string)
  {
    |steps| > 0 && steps[|steps| - 1].id == stepId
  }

  /** With distinct ids, the latest step is the one found at the last index, and no other id is latest. */
  lemma LatestIsLast(steps: seq<PipelineStep>, stepId: string)
    requires DistinctIds(steps)
    ensures IsLatestStep(steps, stepId) <==> HasId(steps, stepId) && IndexOfId(steps, stepId).value == |steps| - 1
    ensures forall id :: IsLatestStep(steps, id) && IsLatestStep(steps, stepId) ==> id == stepId
  {
    if IsLatestStep(steps, stepId) {
      var i := IndexOfId(steps, stepId).value;
      assert steps[i].id == steps[|steps| - 1].id;
    }
  }

  const NotLatestReset: string :=
    "Only the latest step can be reset. Intermediate steps cannot be reset because subsequent steps depend on them."
  const NotLatestDelete: string :=
    "Only the latest step can be deleted. Intermediate steps cannot be deleted because subsequent steps depend on them."

  /**
   * The check reset_step and delete_step make before touching anything:
   * 404 for an unknown step, 400 with the endpoint's own text for a step
   * that is not the latest, else the index the step was found at.
   */
  function LatestGuard(steps: seq<PipelineStep>, stepId: string, notLatest: string): (r: Result<nat, HttpError>)
    ensures r.Err? && r.error.status == 404 <==> !HasId(steps, stepId)
    ensures r.Err? && r.error.status == 400 <==> HasId(steps, stepId) && !IsLatestStep(steps, stepId)
    ensures r.Err? && r.error.status == 400 ==> r.error.detail == notLatest
    ensures r.Ok? <==> HasId(steps, stepId) && IsLatestStep(steps, stepId)
    ensures r.Ok? ==> r.value == IndexOfId(steps, stepId).value
  {
    match IndexOfId(steps, stepId)
    case None =>
      assert !IsLatestStep(steps, stepId) by {
        if |steps| > 0 { assert steps[|steps| - 1].id != stepId; }
      }
      Err(HttpError(404, "Step not found: " + stepId))
    case Some(i) =>
      if !IsLatestStep(steps, stepId) then
        Err(HttpError(400, notLatest))
      else Ok(i)
  }

  /** The scan over the steps that stops at the first one with that id. */
  method FindStep(steps: seq<PipelineStep>, stepId: string) returns (found: Option<nat>)
    ensures found == IndexOfId(steps, stepId)
  {
    var k := 0;
    while k < |steps|
      invariant 0 <= k <= |steps|
      invariant forall m :: 0 <= m < k ==> steps[m].id != stepId
    {
      if steps[k].id == stepId {
        IndexOfIdAt(steps, stepId, k);
        return Some(k);
      }
      k := k + 1;
    }
    return None;
  }

  /**
   * delete_step on the loaded pipeline: after the guard, the step found
   * first under that id is popped and the others stay in order.
   */
  method DeleteStep(pipeline: Pipeline, stepId: string) returns (r: Result<string, HttpError>)
    modifies pipeline
    ensures LatestGuard(old(pipeline.steps), stepId, NotLatestDelete).Err? ==>
      r == Err(LatestGuard(old(pipeline.steps), stepId, NotLatestDelete).error) && pipeline.steps == old(pipeline.steps)
    ensures LatestGuard(old(pipeline.steps), stepId, NotLatestDelete).Ok? ==>
      var i := LatestGuard(old(pipeline.steps), stepId, NotLatestDelete).value;
      r == Ok(stepId) && pipeline.steps == old(pipeline.steps)[..i] + old(pipeline.steps)[i + 1..]
    ensures pipeline.version == old(pipeline.version) && pipeline.finalOutput == old(pipeline.finalOutput)
  {
    var found := FindStep(pipeline.steps, stepId);
    if found.None? {
      return Err(HttpError(404, "Step not found: " + stepId));
    }
    if !IsLatestStep(pipeline.steps, stepId) {
      return Err(HttpError(400, NotLatestDelete));
    }
    var stepIndex := found.value;
    pipeline.steps := pipeline.steps[..stepIndex] + pipeline.steps[stepIndex + 1..];
    return Ok(stepId);
  }

  /** With distinct ids the deletion drops exactly the last step. */
  lemma DeleteDropsLast(steps: seq<PipelineStep>, stepId: string)
    requires DistinctIds(steps) && LatestGuard(steps, stepId, NotLatestDelete).Ok?
    ensures var i := LatestGuard(steps, stepId, NotLatestDelete).value;
      steps[..i] + steps[i + 1..] == steps[..|steps| - 1]
  {
    LatestIsLast(steps, stepId);
  }

  /** The status of a step that has not run. */
  datatype PendingMeta = PendingMeta(stepId: string, stepType: string, name: string, isLatest: bool)

  /**
   * reset_step: after the guard, the step's outputs, changes and meta are
   * removed (not modelled) and a pending meta for the latest step comes back.
   */
  function ResetStep(steps: seq<PipelineStep>, stepId: string): (r: Result<PendingMeta, HttpError>)
    ensures r.Err? <==> LatestGuard(steps, stepId, NotLatestReset).Err?
    ensures r.Err? ==> r.error == LatestGuard(steps, stepId, NotLatestReset).error
    ensures r.Ok? ==> IsLatestStep(steps, stepId)
    ensures r.Ok? ==>
      var step := steps[IndexOfId(steps, stepId).value];
      r.value == PendingMeta(stepId, step.stepType, step.name, true)
  {
    match LatestGuard(steps, stepId, NotLatestReset)
    case Err(e) => Err(e)
    case Ok(i) =>
      var step := steps[i];
      Ok(PendingMeta(stepId, step.stepType, step.name, true))
  }

  /** The statistics of a completed run. */
  datatype StepStats = StepStats(inputCount: nat, totalOutputCount: nat, passedCount: nat, removedCount: int)

  /** The sum of the output counts. */
  function TotalCount(outputs: seq<(string, nat)>): nat
  {
    if |outputs| == 0 then 0 else TotalCount(outputs[..|outputs| - 1]) + outputs[|outputs| - 1].1
  }

  /** The count of the `passed` output, 0 when the handler produced none. */
  function PassedCount(outputs: seq<(string, nat)>): nat
  {
    if |outputs| == 0 then 0
    else if outputs[|outputs| - 1].0 == "passed" then outputs[|outputs| - 1].1
    else PassedCount(outputs[..|outputs| - 1])
  }

  /**
   * The stats run_step records, given the input count and the handler's
   * outputs as (name, number of entries) pairs in dictionary order.
   */
  function RunStats(inputCount: nat, outputs: seq<(string, nat)>): (r: StepStats)
    ensures r.inputCount == inputCount
    ensures r.passedCount + r.removedCount == inputCount
  {
    var passed := PassedCount(outputs);
    StepStats(inputCount, TotalCount(outputs), passed, inputCount - passed)
  }

  /** The passed output is part of the total, so no more entries pass than are written out. */
  lemma {:induction false} PassedWithinTotal(outputs: seq<(string, nat)>)
    ensures PassedCount(outputs) <= TotalCount(outputs)
    ensures (forall k :: 0 <= k < |outputs| ==> outputs[k].0 != "passed") ==> PassedCount(outputs) == 0
  {
    if |outputs| > 0 {
      PassedWithinTotal(outputs[..|outputs| - 1]);
    }
  }

  /** When the outputs split the input (every entry passes or is removed), removed counts the other outputs. */
  lemma RemovedIsTheRest(inputCount: nat, outputs: seq<(string, nat)>)
    requires TotalCount(outputs) == inputCount
    ensures RunStats(inputCount, outputs).removedCount >= 0
    ensures RunStats(inputCount, outputs).removedCount == TotalCount(outputs) - PassedCount(outputs)
  {
    PassedWithinTotal(outputs);
  }

  /** save_output_entries: each entry loses its internal fields, and the order is kept. */
  method CleanEntries(entries: seq<Entry>) returns (clean: seq<Entry>)
    ensures |clean| == |entries|
    ensures forall k :: 0 <= k < |entries| ==> clean[k] == PublicFields(entries[k])
    ensures forall k, name :: 0 <= k < |entries| && name in clean[k] ==> !Internal(name)
  {
    clean := [];
    for k := 0 to |entries|
      invariant |clean| == k
      invariant forall m :: 0 <= m < k ==> clean[m] == PublicFields(entries[m])
    {
      clean := clean + [PublicFields(entries[k])];
    }
  }
}
