/**
 * The pipeline router of the screening application
 * (screening/app/backend/routers/pipeline.py).
 *
 * A pipeline is loaded from `pipeline.json`, changed in place and saved
 * back; the model keeps the loaded pipeline as an object whose `steps`
 * list the endpoints change. Each endpoint is specified by a function of
 * the old list, and the lemmas below those functions say what the
 * endpoints keep: distinct step ids, the order of the other steps, and
 * the multiset of steps when one is moved.
 */
module ScreeningPipeline {
  import opened Wrappers
  import Perm

  /** A step of the pipeline; `input_from` is kept in its plain step-id form. */
  datatype PipelineStep = PipelineStep(id: string, stepType: string, name: string, enabled: bool, inputFrom: string)

  datatype FinalOutput = FinalOutput(step: string, output: string)

  /** No two steps share an id. */
  predicate DistinctIds(steps: seq<PipelineStep>)
  {
    forall p, q :: 0 <= p < q < |steps| ==> steps[p].id != steps[q].id
  }

  predicate HasId(steps: seq<PipelineStep>, id: string)
  {
    exists k :: 0 <= k < |steps| && steps[k].id == id
  }

  /** The first index holding a step with that id. */
  function IndexOfId(steps: seq<PipelineStep>, id: string): (r: Option<nat>)
    ensures r.None? <==> !HasId(steps, id)
    ensures r.Some? ==> r.value < |steps| && steps[r.value].id == id
    ensures r.Some? ==> forall k :: 0 <= k < r.value ==> steps[k].id != id
  {
    if |steps| == 0 then None
    else if steps[0].id == id then Some(0)
    else
      match IndexOfId(steps[1..], id)
      case None => None
      case Some(i) => Some(i + 1)
  }

  /** An index with that id and none before it is the one IndexOfId finds. */
  lemma IndexOfIdAt(steps: seq<PipelineStep>, id: string, k: nat)
    requires k < |steps| && steps[k].id == id
    requires forall m :: 0 <= m < k ==> steps[m].id != id
    ensures IndexOfId(steps, id) == Some(k)
  {
    var r := IndexOfId(steps, id);
    assert r.Some?;
    assert !(r.value < k) && !(k < r.value);
  }

  /** The list after add_step: 400 for an id already present, else the step appended. */
  function AddedSteps(steps: seq<PipelineStep>, step: PipelineStep): seq<PipelineStep>
  {
    if HasId(steps, step.id) then steps else steps + [step]
  }

  /** The list after update_step: the first step with that id replaced in place. */
  function UpdatedSteps(steps: seq<PipelineStep>, stepId: string, step: PipelineStep): seq<PipelineStep>
  {
    match IndexOfId(steps, stepId)
    case None => steps
    case Some(i) => steps[i := step]
  }

  /** The list after remove_step: every step with that id dropped, the others in order. */
  function RemovedSteps(steps: seq<PipelineStep>, stepId: string): seq<PipelineStep>
  {
    Perm.Filter((s: PipelineStep) => s.id != stepId, steps)
  }

  /** max(0, min(n, hi)). */
  function Clamp(n: int, hi: nat): (r: nat)
    ensures r <= hi
    ensures 0 <= n <= hi ==> r == n
  {
    if n < 0 then 0 else if n > hi then hi else n
  }

  /** steps.pop(i) followed by insert(j, popped). */
  function Moved(steps: seq<PipelineStep>, i: nat, j: nat): seq<PipelineStep>
    requires i < |steps| && j < |steps|
  {
    var rest := steps[..i] + steps[i + 1..];
    rest[..j] + [steps[i]] + rest[j..]
  }

  /** The list after move_step: the first step with that id popped and reinserted at the clamped index. */
  function MovedSteps(steps: seq<PipelineStep>, stepId: string, newIndex: int): seq<PipelineStep>
  {
    match IndexOfId(steps, stepId)
    case None => steps
    case Some(i) => Moved(steps, i, Clamp(newIndex, |steps| - 1))
  }

  /** Adding either refuses a taken id or appends: distinct ids stay distinct. */
  lemma AddKeepsDistinct(steps: seq<PipelineStep>, step: PipelineStep)
    requires DistinctIds(steps)
    ensures DistinctIds(AddedSteps(steps, step))
    ensures !HasId(steps, step.id) ==> AddedSteps(steps, step)[|steps|] == step
  {
    if !HasId(steps, step.id) {
      var r := steps + [step];
      forall p, q | 0 <= p < q < |r| ensures r[p].id != r[q].id {
        if q == |steps| {
          assert r[p] == steps[p];
        }
      }
    }
  }

  /** An update that keeps the step's id keeps the ids distinct and touches one position only. */
  lemma UpdateKeepsOthers(steps: seq<PipelineStep>, stepId: string, step: PipelineStep)
    ensures |UpdatedSteps(steps, stepId, step)| == |steps|
    ensures HasId(steps, stepId) ==>
      var i := IndexOfId(steps, stepId).value;
      && UpdatedSteps(steps, stepId, step)[i] == step
      && forall k :: 0 <= k < |steps| && k != i ==> UpdatedSteps(steps, stepId, step)[k] == steps[k]
    ensures DistinctIds(steps) && step.id == stepId ==> DistinctIds(UpdatedSteps(steps, stepId, step))
  {
  }

  /** Removing keeps exactly the steps with another id, in their order. */
  lemma RemoveKeepsOthers(steps: seq<PipelineStep>, stepId: string)
    ensures forall s :: s in RemovedSteps(steps, stepId) <==> s in steps && s.id != stepId
    ensures !HasId(steps, stepId) ==> RemovedSteps(steps, stepId) == steps
  {
    forall s {
      Perm.FilterMembers((s: PipelineStep) => s.id != stepId, steps, s);
    }
    if !HasId(steps, stepId) {
      FilterAllPass(steps, stepId, |steps|);
      assert steps[..|steps|] == steps;
    }
  }

  lemma {:induction false} FilterAllPass(steps: seq<PipelineStep>, stepId: string, n: nat)
    requires n <= |steps| && !HasId(steps, stepId)
    ensures Perm.Filter((s: PipelineStep) => s.id != stepId, steps[..n]) == steps[..n]
  {
    if n > 0 {
      FilterAllPass(steps, stepId, n - 1);
      Perm.FilterSnoc((s: PipelineStep) => s.id != stepId, steps, n - 1);
      assert steps[..n] == steps[..n - 1] + [steps[n - 1]];
    }
  }

  /** Filtering a prefix keeps distinct ids distinct. */
  lemma {:induction false} FilterKeepsDistinct(steps: seq<PipelineStep>, stepId: string, n: nat)
    requires n <= |steps| && DistinctIds(steps)
    ensures DistinctIds(Perm.Filter((s: PipelineStep) => s.id != stepId, steps[..n]))
  {
    var f := (s: PipelineStep) => s.id != stepId;
    if n > 0 {
      FilterKeepsDistinct(steps, stepId, n - 1);
      Perm.FilterSnoc(f, steps, n - 1);
      var init := Perm.Filter(f, steps[..n - 1]);
      if f(steps[n - 1]) {
        var r := init + [steps[n - 1]];
        forall p, q | 0 <= p < q < |r| ensures r[p].id != r[q].id {
          if q == |init| {
            assert r[p] == init[p];
            Perm.FilterMembers(f, steps[..n - 1], r[p]);
            assert r[p] in steps[..n - 1];
            var k :| 0 <= k < n - 1 && steps[..n - 1][k] == r[p];
            assert steps[k] == r[p];
          } else {
            assert r[p] == init[p] && r[q] == init[q];
          }
        }
      }
    }
  }

  lemma RemoveKeepsDistinct(steps: seq<PipelineStep>, stepId: string)
    requires DistinctIds(steps)
    ensures DistinctIds(RemovedSteps(steps, stepId))
    ensures !HasId(RemovedSteps(steps, stepId), stepId)
  {
    FilterKeepsDistinct(steps, stepId, |steps|);
    assert steps[..|steps|] == steps;
    RemoveKeepsOthers(steps, stepId);
    var r := RemovedSteps(steps, stepId);
    forall k | 0 <= k < |r| ensures r[k].id != stepId {
      assert r[k] in r;
    }
  }

  /** Moving is a permutation that puts the moved step at the target index. */
  lemma MovedIsPermutation(steps: seq<PipelineStep>, i: nat, j: nat)
    requires i < |steps| && j < |steps|
    ensures |Moved(steps, i, j)| == |steps|
    ensures multiset(Moved(steps, i, j)) == multiset(steps)
    ensures Moved(steps, i, j)[j] == steps[i]
  {
    var rest := steps[..i] + steps[i + 1..];
    assert steps == steps[..i] + [steps[i]] + steps[i + 1..];
    assert rest == rest[..j] + rest[j..];
    calc {
      multiset(Moved(steps, i, j));
      multiset(rest[..j]) + multiset{steps[i]} + multiset(rest[j..]);
      multiset(rest) + multiset{steps[i]};
      multiset(steps[..i]) + multiset(steps[i + 1..]) + multiset{steps[i]};
      multiset(steps);
    }
  }

  /** move_step keeps the multiset of steps, so it keeps their ids distinct too. */
  lemma MoveKeepsSteps(steps: seq<PipelineStep>, stepId: string, newIndex: int)
    ensures multiset(MovedSteps(steps, stepId, newIndex)) == multiset(steps)
    ensures HasId(steps, stepId) ==>
      MovedSteps(steps, stepId, newIndex)[Clamp(newIndex, |steps| - 1)] == steps[IndexOfId(steps, stepId).value]
  {
    match IndexOfId(steps, stepId)
    case None =>
    case Some(i) =>
      MovedIsPermutation(steps, i, Clamp(newIndex, |steps| - 1));
  }

  /** The pipeline loaded from `pipeline.json`, changed in place by the step endpoints. */
  class Pipeline {
    var version: string
    var steps: seq<PipelineStep>
    var finalOutput: Option<FinalOutput>

    constructor (version: string, steps: seq<PipelineStep>, finalOutput: Option<FinalOutput>)
      ensures this.version == version && this.steps == steps && this.finalOutput == finalOutput
    {
      this.version := version;
      this.steps := steps;
      this.finalOutput := finalOutput;
    }

    /** add_step: 400 when the id is taken, otherwise the step goes at the end. */
    method AddStep(step: PipelineStep) returns (err: Option<HttpError>)
      modifies this
      ensures err.Some? <==> HasId(old(steps), step.id)
      ensures err.Some? ==> err.value.status == 400
      ensures steps == AddedSteps(old(steps), step)
      ensures version == old(version) && finalOutput == old(finalOutput)
    {
      var k := 0;
      while k < |steps|
        invariant 0 <= k <= |steps|
        invariant forall m :: 0 <= m < k ==> steps[m].id != step.id
      {
        if steps[k].id == step.id {
          return Some(HttpError(400, "Step ID already exists: " + step.id));
        }
        k := k + 1;
      }
      steps := steps + [step];
      return None;
    }

    /** update_step: the first step with that id is replaced at its index; 404 when there is none. */
    method UpdateStep(stepId: string, step: PipelineStep) returns (err: Option<HttpError>)
      modifies this
      ensures err.Some? <==> !HasId(old(steps), stepId)
      ensures err.Some? ==> err.value.status == 404
      ensures steps == UpdatedSteps(old(steps), stepId, step)
      ensures version == old(version) && finalOutput == old(finalOutput)
    {
      var i := 0;
      while i < |steps|
        invariant 0 <= i <= |steps|
        invariant forall m :: 0 <= m < i ==> steps[m].id != stepId
      {
        if steps[i].id == stepId {
          steps := steps[i := step];
          return None;
        }
        i := i + 1;
      }
      return Some(HttpError(404, "Step not found: " + stepId));
    }

    /** remove_step: the list rebuilt without the steps carrying that id. */
    method RemoveStep(stepId: string)
      modifies this
      ensures steps == RemovedSteps(old(steps), stepId)
      ensures version == old(version) && finalOutput == old(finalOutput)
    {
      steps := RemovedSteps(steps, stepId);
    }

    /** move_step: pop the first step with that id and insert it at the clamped index; 404 when absent. */
    method MoveStep(stepId: string, newIndex: int) returns (err: Option<HttpError>)
      modifies this
      ensures err.Some? <==> !HasId(old(steps), stepId)
      ensures err.Some? ==> err.value.status == 404
      ensures steps == MovedSteps(old(steps), stepId, newIndex)
      ensures version == old(version) && finalOutput == old(finalOutput)
    {
      var i := 0;
      while i < |steps|
        invariant 0 <= i <= |steps|
        invariant forall m :: 0 <= m < i ==> steps[m].id != stepId
      {
        if steps[i].id == stepId {
          var popped := steps[i];
          var remaining := steps[..i] + steps[i + 1..];
          var at := Clamp(newIndex, |remaining|);
          steps := remaining[..at] + [popped] + remaining[at..];
          return None;
        }
        i := i + 1;
      }
      return Some(HttpError(404, "Step not found: " + stepId));
    }
  }
}
