/**
 * The review router of the screening application
 * (screening/app/backend/routers/reviews.py).
 *
 * As in the main application, a review holds one paper record per
 * citation key; here a paper also carries a `checked` flag, an empty
 * manual decision is stored as None, there is no reset, and the export's
 * final decision is simply the manual decision when one is set.
 */
module ScreeningReviews {
  import opened Wrappers
  import opened Text
  import Perm

  /** One line of decisions.jsonl; each optional key may be absent. */
  datatype Decision = Decision(citationKey: string, decision: Option<string>, confidence: Option<real>, reason: Option<string>)

  datatype Paper = Paper(aiDecision: string, aiConfidence: real, aiReason: string, manualDecision: Option<string>,
                         checked: bool, note: string)

  datatype Stats = Stats(total: nat, checked: nat, modified: nat)

  /** The record a decision line starts as: unchecked, no manual decision, no note. */
  function NewPaper(d: Decision): Paper
  {
    Paper(d.decision.GetOr(""), d.confidence.GetOr(0.0), d.reason.GetOr(""), None, false, "")
  }

  /** The papers built from the decision lines: a later line for the same key replaces the earlier one. */
  function InitPapers(decisions: seq<Decision>): (r: map<string, Paper>)
    ensures forall k :: k in r <==> exists i :: 0 <= i < |decisions| && decisions[i].citationKey == k
    ensures forall k :: k in r ==> r[k].manualDecision.None? && !r[k].checked
  {
    if |decisions| == 0 then map[]
    else
      var n := |decisions| - 1;
      var init := InitPapers(decisions[..n]);
      assert forall i :: 0 <= i < n ==> decisions[..n][i] == decisions[i];
      init[decisions[n].citationKey := NewPaper(decisions[n])]
  }

  /** The keys in the order the dictionary first saw them. */
  function InitOrder(decisions: seq<Decision>): seq<string>
  {
    if |decisions| == 0 then []
    else
      var n := |decisions| - 1;
      var init := InitOrder(decisions[..n]);
      if decisions[n].citationKey in init then init else init + [decisions[n].citationKey]
  }

  /** The key order lists every paper once. */
  predicate OrderMatches(order: seq<string>, papers: map<string, Paper>)
  {
    (forall k :: k in order ==> k in papers) && (forall k :: k in papers ==> k in order) && Perm.Distinct(order)
  }

  lemma {:induction false} InitOrderMatches(decisions: seq<Decision>)
    ensures OrderMatches(InitOrder(decisions), InitPapers(decisions))
  {
    if |decisions| > 0 {
      var n := |decisions| - 1;
      InitOrderMatches(decisions[..n]);
      var init := InitOrder(decisions[..n]);
      var key := decisions[n].citationKey;
      if key !in init {
        var r := init + [key];
        forall p, q | 0 <= p < q < |r| ensures r[p] != r[q] {
          if q == |init| {
            assert r[p] == init[p];
          }
        }
      }
    }
  }

  /**
   * The rules name recorded in a new review, from the first line of the
   * run's rules.md (None when there is no such file): the line stripped,
   * and when it is a `#` heading, the text after the hashes, stripped.
   */
  function RulesName(firstLine: Option<string>): (r: string)
    ensures firstLine.None? ==> r == ""
    ensures firstLine.Some? && !StartsWith(Strip(firstLine.value), "#") ==> r == ""
    ensures |r| > 0 ==> !IsSpace(r[0]) && !IsSpace(r[|r| - 1])
    ensures firstLine.Some? ==> forall c :: c in r ==> c in firstLine.value
  {
    if firstLine.None? then ""
    else
      var line := Strip(firstLine.value);
      if !StartsWith(line, "#") then ""
      else
        var rest := StripStart(line, {'#'});
        StripStartFacts(line, {'#'});
        assert forall c :: c in rest ==> c in line;
        Strip(rest)
  }

  /** The keys of the papers marked checked. */
  function Checked(papers: map<string, Paper>): set<string>
  {
    set k | k in papers && papers[k].checked
  }

  /** The keys of the papers with a manual decision. */
  function Modified(papers: map<string, Paper>): set<string>
  {
    set k | k in papers && papers[k].manualDecision.Some?
  }

  /** update_stats: the number of papers, of checked papers and of papers with a manual decision. */
  function StatsOf(papers: map<string, Paper>): (r: Stats)
    ensures r.checked <= r.total && r.modified <= r.total
  {
    Perm.SubsetSize(Checked(papers), papers.Keys);
    Perm.SubsetSize(Modified(papers), papers.Keys);
    Stats(|papers|, |Checked(papers)|, |Modified(papers)|)
  }

  /** Setting one existing paper changes each count by at most one, as that paper's new flags say. */
  lemma StatsAfterUpdate(papers: map<string, Paper>, key: string, p: Paper)
    requires key in papers
    ensures StatsOf(papers[key := p]).total == StatsOf(papers).total
    ensures Checked(papers[key := p]) == if p.checked then Checked(papers) + {key} else Checked(papers) - {key}
    ensures Modified(papers[key := p]) ==
      if p.manualDecision.Some? then Modified(papers) + {key} else Modified(papers) - {key}
  {
    var after := papers[key := p];
    assert after.Keys == papers.Keys;
    CheckedAfterUpdate(papers, key, p);
    ModifiedAfterUpdate(papers, key, p);
  }

  lemma CheckedAfterUpdate(papers: map<string, Paper>, key: string, p: Paper)
    requires key in papers
    ensures Checked(papers[key := p]) == if p.checked then Checked(papers) + {key} else Checked(papers) - {key}
  {
    var after := papers[key := p];
    forall k ensures k in Checked(after) <==> k in (if p.checked then Checked(papers) + {key} else Checked(papers) - {key}) {
      if k != key {
        assert k in after <==> k in papers;
      }
    }
  }

  lemma ModifiedAfterUpdate(papers: map<string, Paper>, key: string, p: Paper)
    requires key in papers
    ensures Modified(papers[key := p]) ==
      if p.manualDecision.Some? then Modified(papers) + {key} else Modified(papers) - {key}
  {
    var after := papers[key := p];
    forall k ensures k in Modified(after) <==>
      k in (if p.manualDecision.Some? then Modified(papers) + {key} else Modified(papers) - {key}) {
      if k != key {
        assert k in after <==> k in papers;
      }
    }
  }

  /** A fresh review has nothing checked and nothing modified. */
  lemma FreshStats(decisions: seq<Decision>)
    ensures StatsOf(InitPapers(decisions)) == Stats(|InitPapers(decisions)|, 0, 0)
  {
    assert Checked(InitPapers(decisions)) == {};
    assert Modified(InitPapers(decisions)) == {};
  }

  /** `value if value else None`: the empty text clears the manual decision. */
  function StoredDecision(decision: string): (r: Option<string>)
    ensures r.None? <==> decision == ""
    ensures r.Some? ==> r.value == decision
  {
    if decision != "" then Some(decision) else None
  }

  /** The change both update endpoints make: decision and checked flag, each only when given. */
  function WithReview(p: Paper, decision: Option<string>, checked: Option<bool>): (r: Paper)
    ensures r.manualDecision == if decision.Some? then StoredDecision(decision.value) else p.manualDecision
    ensures r.checked == checked.GetOr(p.checked)
    ensures r.note == p.note && r.aiDecision == p.aiDecision
  {
    var q := if decision.Some? then p.(manualDecision := StoredDecision(decision.value)) else p;
    if checked.Some? then q.(checked := checked.value) else q
  }

  /** update_paper_review's change of one paper: the above, and the note when one is given. */
  function Updated(p: Paper, decision: Option<string>, checked: Option<bool>, note: Option<string>): (r: Paper)
    ensures r == WithReview(p, decision, checked).(note := note.GetOr(p.note))
  {
    var q := WithReview(p, decision, checked);
    if note.Some? then q.(note := note.value) else q
  }

  /** Applying the same change twice is applying it once, so a key listed twice is updated once. */
  lemma WithReviewIdempotent(p: Paper, decision: Option<string>, checked: Option<bool>)
    ensures WithReview(WithReview(p, decision, checked), decision, checked) == WithReview(p, decision, checked)
  {
  }

  /** The requested keys that name a paper, in request order and with repeats. */
  function Known(keys: seq<string>, papers: map<string, Paper>): seq<string>
  {
    Perm.Filter((k: string) => k in papers, keys)
  }

  /** The export's final decision: `manual or ai`. */
  function FinalDecision(manual: Option<string>, ai: string): (r: string)
    ensures manual.Some? && manual.value != "" ==> r == manual.value
    ensures manual.None? || manual == Some("") ==> r == ai
  {
    if manual.Some? && manual.value != "" then manual.value else ai
  }

  /** A paper stored through the update endpoints never holds the empty decision, so its final decision is the manual one when there is one. */
  lemma FinalAfterUpdate(p: Paper, decision: Option<string>, checked: Option<bool>)
    requires p.manualDecision != Some("")
    ensures var q := WithReview(p, decision, checked);
      q.manualDecision != Some("") &&
      FinalDecision(q.manualDecision, q.aiDecision) == if q.manualDecision.Some? then q.manualDecision.value else q.aiDecision
  {
  }

  /** A row of the export. */
  datatype ExportRow = ExportRow(citationKey: string, aiDecision: string, manualDecision: Option<string>,
                                 finalDecision: string, checked: bool, note: string)

  function RowOf(key: string, p: Paper): ExportRow
  {
    ExportRow(key, p.aiDecision, p.manualDecision, FinalDecision(p.manualDecision, p.aiDecision), p.checked, p.note)
  }

  /** A loaded review.json. */
  class Review {
    var runId: string
    var sourceRules: string
    var order: seq<string>
    var papers: map<string, Paper>
    var stats: Stats

    ghost predicate Valid()
      reads this
    {
      OrderMatches(order, papers)
    }

    /** init_review_from_run over the decision lines of the run and the first line of its rules file. */
    constructor FromRun(runId: string, decisions: seq<Decision>, rulesFirstLine: Option<string>)
      ensures Valid()
      ensures this.runId == runId && sourceRules == RulesName(rulesFirstLine)
      ensures order == InitOrder(decisions) && papers == InitPapers(decisions)
      ensures stats == Stats(|papers|, 0, 0)
    {
      this.runId := runId;
      this.sourceRules := RulesName(rulesFirstLine);
      var order: seq<string> := [];
      var papers: map<string, Paper> := map[];
      for i := 0 to |decisions|
        invariant order == InitOrder(decisions[..i]) && papers == InitPapers(decisions[..i])
      {
        assert decisions[..i + 1][..i] == decisions[..i];
        var d := decisions[i];
        if d.citationKey !in order {
          order := order + [d.citationKey];
        }
        papers := papers[d.citationKey := NewPaper(d)];
      }
      assert decisions[..|decisions|] == decisions;
      InitOrderMatches(decisions);
      FreshStats(decisions);
      this.order := order;
      this.papers := papers;
      this.stats := Stats(|papers|, 0, 0);
    }

    /** update_stats. */
    method UpdateStats()
      modifies this
      ensures stats == StatsOf(papers)
      ensures runId == old(runId) && sourceRules == old(sourceRules) && order == old(order) && papers == old(papers)
    {
      stats := StatsOf(papers);
    }

    /** update_paper_review: 404 for an unknown key; otherwise that paper alone changes and the stats follow. */
    method UpdatePaperReview(key: string, decision: Option<string>, checked: Option<bool>, note: Option<string>)
      returns (r: Result<Paper, HttpError>)
      requires Valid()
      modifies this
      ensures Valid()
      ensures key !in old(papers) ==> r == Err(HttpError(404, "Paper not found")) && papers == old(papers) && stats == old(stats)
      ensures key in old(papers) ==>
        && r == Ok(Updated(old(papers)[key], decision, checked, note))
        && papers == old(papers)[key := r.value]
        && stats == StatsOf(papers)
      ensures runId == old(runId) && sourceRules == old(sourceRules) && order == old(order)
    {
      if key !in papers {
        return Err(HttpError(404, "Paper not found"));
      }
      var paper := Updated(papers[key], decision, checked, note);
      papers := papers[key := paper];
      UpdateStats();
      return Ok(paper);
    }

    /**
     * bulk_update_papers: every listed key that names a paper gets the
     * decision and the checked flag given, the others are skipped; the
     * answer lists the keys that were updated, in request order.
     */
    method BulkUpdate(keys: seq<string>, decision: Option<string>, checked: Option<bool>)
      returns (updated: seq<string>, count: nat)
      requires Valid()
      modifies this
      ensures Valid()
      ensures updated == Known(keys, old(papers)) && count == |updated|
      ensures papers.Keys == old(papers).Keys
      ensures forall k :: k in papers ==>
        papers[k] == if k in keys then WithReview(old(papers)[k], decision, checked) else old(papers)[k]
      ensures stats == StatsOf(papers)
      ensures runId == old(runId) && sourceRules == old(sourceRules) && order == old(order)
    {
      updated := [];
      for i := 0 to |keys|
        invariant updated == Known(keys[..i], old(papers))
        invariant papers.Keys == old(papers).Keys && order == old(order)
        invariant runId == old(runId) && sourceRules == old(sourceRules)
        invariant forall k :: k in papers ==>
          papers[k] == if k in keys[..i] then WithReview(old(papers)[k], decision, checked) else old(papers)[k]
      {
        Perm.FilterSnoc((k: string) => k in old(papers), keys, i);
        assert keys[..i + 1] == keys[..i] + [keys[i]];
        var key := keys[i];
        if key in papers {
          papers := papers[key := WithReview(papers[key], decision, checked)];
          updated := updated + [key];
        }
      }
      assert keys[..|keys|] == keys;
      UpdateStats();
      count := |updated|;
    }

    /** export_review's rows, one per paper in dictionary order. */
    method Export() returns (results: seq<ExportRow>)
      requires Valid()
      ensures |results| == |order|
      ensures forall i :: 0 <= i < |order| ==> results[i] == RowOf(order[i], papers[order[i]])
    {
      results := [];
      for i := 0 to |order|
        invariant |results| == i
        invariant forall j :: 0 <= j < i ==> results[j] == RowOf(order[j], papers[order[j]])
      {
        var key := order[i];
        results := results + [RowOf(key, papers[key])];
      }
    }
  }
}
