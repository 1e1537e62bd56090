/**
 * The review router of the main application (app/backend/routers/reviews.py).
 *
 * A review is the JSON document kept next to a screening run: one paper
 * record per citation key, holding the AI's decision and an optional
 * manual decision, plus statistics over the papers. The model keeps a
 * loaded review as an object whose paper dictionary (its key order and its
 * map) and statistics the endpoints change in place. A manual decision of
 * None means "not reviewed", "ai" means "the AI decision was confirmed",
 * and any other text overrides the AI decision.
 */
module AppReviews {
  import opened Wrappers
  import Perm

  /** One line of decisions.jsonl; each optional key may be absent. */
  datatype Decision = Decision(citationKey: string, decision: Option<string>, confidence: Option<real>, reason: Option<string>)

  datatype Paper = Paper(aiDecision: string, aiConfidence: real, aiReason: string, manualDecision: Option<string>, note: string)

  datatype Stats = Stats(total: nat, reviewed: nat)

  /** The record a decision line starts as: not reviewed, no note. */
  function NewPaper(d: Decision): Paper
  {
    Paper(d.decision.GetOr(""), d.confidence.GetOr(0.0), d.reason.GetOr(""), None, "")
  }

  /** The papers built from the decision lines: a later line for the same key replaces the earlier one. */
  function InitPapers(decisions: seq<Decision>): (r: map<string, Paper>)
    ensures forall k :: k in r <==> exists i :: 0 <= i < |decisions| && decisions[i].citationKey == k
    ensures forall k :: k in r ==> r[k].manualDecision.None?
  {
    if |decisions| == 0 then map[]
    else
      var n := |decisions| - 1;
      var init := InitPapers(decisions[..n]);
      assert forall i :: 0 <= i < n ==> decisions[..n][i] == decisions[i];
      init[decisions[n].citationKey := NewPaper(decisions[n])]
  }

  /** The keys in the order the dictionary first saw them. */
  function InitOrder(decisions: seq<Decision>): seq<string>
  {
    if |decisions| == 0 then []
    else
      var n := |decisions| - 1;
      var init := InitOrder(decisions[..n]);
      if decisions[n].citationKey in init then init else init + [decisions[n].citationKey]
  }

  /** The key order lists every paper once. */
  predicate OrderMatches(order: seq<string>, papers: map<string, Paper>)
  {
    (forall k :: k in order ==> k in papers) && (forall k :: k in papers ==> k in order) && Perm.Distinct(order)
  }

  lemma {:induction false} InitOrderMatches(decisions: seq<Decision>)
    ensures OrderMatches(InitOrder(decisions), InitPapers(decisions))
  {
    if |decisions| > 0 {
      var n := |decisions| - 1;
      InitOrderMatches(decisions[..n]);
      var init := InitOrder(decisions[..n]);
      var key := decisions[n].citationKey;
      if key !in init {
        var r := init + [key];
        forall p, q | 0 <= p < q < |r| ensures r[p] != r[q] {
          if q == |init| {
            assert r[p] == init[p];
          }
        }
      }
    }
  }

  /** The keys of the papers a person has reviewed (manual decision not None). */
  function Reviewed(papers: map<string, Paper>): set<string>
  {
    set k | k in papers && papers[k].manualDecision.Some?
  }

  /** update_stats: the number of papers and the number reviewed. */
  function StatsOf(papers: map<string, Paper>): (r: Stats)
    ensures r.reviewed <= r.total
  {
    Perm.SubsetSize(Reviewed(papers), papers.Keys);
    Stats(|papers|, |Reviewed(papers)|)
  }

  /** Setting one existing paper moves the reviewed count by at most one, as its manual decision says. */
  lemma StatsAfterUpdate(papers: map<string, Paper>, key: string, p: Paper)
    requires key in papers
    ensures StatsOf(papers[key := p]).total == StatsOf(papers).total
    ensures Reviewed(papers[key := p]) ==
      if p.manualDecision.Some? then Reviewed(papers) + {key} else Reviewed(papers) - {key}
  {
    assert papers[key := p].Keys == papers.Keys;
  }

  /** A fresh review has nothing reviewed. */
  lemma FreshStats(decisions: seq<Decision>)
    ensures StatsOf(InitPapers(decisions)) == Stats(|InitPapers(decisions)|, 0)
  {
    assert Reviewed(InitPapers(decisions)) == {};
  }

  /** The decision part of an update: reset wins over a new decision, and neither leaves it as it was. */
  function WithDecision(p: Paper, decision: Option<string>, reset: bool): (r: Paper)
    ensures reset ==> r.manualDecision.None?
    ensures !reset && decision.Some? ==> r.manualDecision == decision
    ensures !reset && decision.None? ==> r.manualDecision == p.manualDecision
    ensures r.aiDecision == p.aiDecision && r.note == p.note
  {
    if reset then p.(manualDecision := None)
    else if decision.Some? then p.(manualDecision := decision)
    else p
  }

  /** update_paper_review's change of one paper: the decision as above, and the note when one is given. */
  function Updated(p: Paper, decision: Option<string>, note: Option<string>, reset: bool): (r: Paper)
    ensures r.manualDecision == WithDecision(p, decision, reset).manualDecision
    ensures r.note == note.GetOr(p.note)
    ensures r.aiDecision == p.aiDecision && r.aiConfidence == p.aiConfidence && r.aiReason == p.aiReason
  {
    var q := WithDecision(p, decision, reset);
    if note.Some? then q.(note := note.value) else q
  }

  /** Applying the same decision twice is applying it once, so a key listed twice is updated once. */
  lemma WithDecisionIdempotent(p: Paper, decision: Option<string>, reset: bool)
    ensures WithDecision(WithDecision(p, decision, reset), decision, reset) == WithDecision(p, decision, reset)
  {
  }

  /** The requested keys that name a paper, in request order and with repeats. */
  function Known(keys: seq<string>, papers: map<string, Paper>): seq<string>
  {
    Perm.Filter((k: string) => k in papers, keys)
  }

  /** The final decision of the export: the AI's when confirmed or not reviewed, else the manual one. */
  function FinalDecision(manual: Option<string>, ai: string): (r: string)
    ensures r == ai || (manual.Some? && r == manual.value)
    ensures manual.None? || manual == Some("ai") || manual == Some("") ==> r == ai
    ensures manual.Some? && manual.value != "ai" && manual.value != "" ==> r == manual.value
  {
    if manual == Some("ai") then ai
    else if manual.Some? && manual.value != "" then manual.value
    else ai
  }

  /** A row of the export. */
  datatype ExportRow = ExportRow(citationKey: string, aiDecision: string, manualDecision: Option<string>,
                                 finalDecision: string, reviewed: bool, note: string)

  function RowOf(key: string, p: Paper): ExportRow
  {
    ExportRow(key, p.aiDecision, p.manualDecision, FinalDecision(p.manualDecision, p.aiDecision), p.manualDecision.Some?, p.note)
  }

  /** A loaded review.json. */
  class Review {
    var runId: string
    var order: seq<string>
    var papers: map<string, Paper>
    var stats: Stats

    ghost predicate Valid()
      reads this
    {
      OrderMatches(order, papers)
    }

    /** init_review_from_run over the decision lines of the run. */
    constructor FromRun(runId: string, decisions: seq<Decision>)
      ensures Valid()
      ensures this.runId == runId
      ensures order == InitOrder(decisions) && papers == InitPapers(decisions)
      ensures stats == Stats(|papers|, 0)
    {
      this.runId := runId;
      var order: seq<string> := [];
      var papers: map<string, Paper> := map[];
      for i := 0 to |decisions|
        invariant order == InitOrder(decisions[..i]) && papers == InitPapers(decisions[..i])
      {
        assert decisions[..i + 1][..i] == decisions[..i];
        var d := decisions[i];
        if d.citationKey !in order {
          order := order + [d.citationKey];
        }
        papers := papers[d.citationKey := NewPaper(d)];
      }
      assert decisions[..|decisions|] == decisions;
      InitOrderMatches(decisions);
      FreshStats(decisions);
      this.order := order;
      this.papers := papers;
      this.stats := Stats(|papers|, 0);
    }

    /** update_stats. */
    method UpdateStats()
      modifies this
      ensures stats == StatsOf(papers)
      ensures runId == old(runId) && order == old(order) && papers == old(papers)
    {
      stats := StatsOf(papers);
    }

    /** update_paper_review: 404 for an unknown key; otherwise that paper alone changes and the stats follow. */
    method UpdatePaperReview(key: string, decision: Option<string>, note: Option<string>, reset: bool)
      returns (r: Result<Paper, HttpError>)
      requires Valid()
      modifies this
      ensures Valid()
      ensures key !in old(papers) ==> r == Err(HttpError(404, "Paper not found")) && papers == old(papers) && stats == old(stats)
      ensures key in old(papers) ==>
        && r == Ok(Updated(old(papers)[key], decision, note, reset))
        && papers == old(papers)[key := r.value]
        && stats == StatsOf(papers)
      ensures runId == old(runId) && order == old(order)
    {
      if key !in papers {
        return Err(HttpError(404, "Paper not found"));
      }
      var paper := Updated(papers[key], decision, note, reset);
      papers := papers[key := paper];
      UpdateStats();
      return Ok(paper);
    }

    /**
     * bulk_update_papers: every listed key that names a paper gets the
     * decision (reset first), the others are skipped; the answer lists the
     * keys that were updated, in request order.
     */
    method BulkUpdate(keys: seq<string>, decision: Option<string>, reset: bool) returns (updated: seq<string>, count: nat)
      requires Valid()
      modifies this
      ensures Valid()
      ensures updated == Known(keys, old(papers)) && count == |updated|
      ensures papers.Keys == old(papers).Keys
      ensures forall k :: k in papers ==>
        papers[k] == if k in keys then WithDecision(old(papers)[k], decision, reset) else old(papers)[k]
      ensures stats == StatsOf(papers)
      ensures runId == old(runId) && order == old(order)
    {
      updated := [];
      for i := 0 to |keys|
        invariant updated == Known(keys[..i], old(papers))
        invariant papers.Keys == old(papers).Keys && order == old(order) && runId == old(runId)
        invariant forall k :: k in papers ==>
          papers[k] == if k in keys[..i] then WithDecision(old(papers)[k], decision, reset) else old(papers)[k]
      {
        Perm.FilterSnoc((k: string) => k in old(papers), keys, i);
        assert keys[..i + 1] == keys[..i] + [keys[i]];
        var key := keys[i];
        if key in papers {
          papers := papers[key := WithDecision(papers[key], decision, reset)];
          updated := updated + [key];
        }
      }
      assert keys[..|keys|] == keys;
      UpdateStats();
      count := |updated|;
    }

    /** export_review's rows, one per paper in dictionary order. */
    method Export() returns (results: seq<ExportRow>)
      requires Valid()
      ensures |results| == |order|
      ensures forall i :: 0 <= i < |order| ==> results[i] == RowOf(order[i], papers[order[i]])
    {
      results := [];
      for i := 0 to |order|
        invariant |results| == i
        invariant forall j :: 0 <= j < i ==> results[j] == RowOf(order[j], papers[order[j]])
      {
        var key := order[i];
        results := results + [RowOf(key, papers[key])];
      }
    }
  }
}
