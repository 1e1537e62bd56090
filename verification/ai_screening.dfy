/**
 * The AI screening step (app/backend/step_handlers/ai_screening.py): every
 * entry is judged by a chat model against a rules text, and the judgements
 * split the entries into the passed, excluded and uncertain outputs, with one
 * change per judged entry.
 *
 * The chat call is an oracle `ask` from the prompt's inputs to what came
 * back; the rules file and the API key are handed in as what reading them
 * produced.
 */
module AiScreening {
  import opened Wrappers
  import opened Text
  import opened Bib
  import opened DedupUtils

  const OpenAiConcurrency: int := 10
  const LocalConcurrency: int := 100
  const OpenAiDefaultModel := "gpt-5-nano-2025-08-07"
  const LocalDefaultModel := "openai/gpt-oss-120b"
  const DefaultRulesId := "decompile_v4"
  const NoAbstract := "No abstract available"

  // ------------------------------------------------------------------
  // One paper
  // ------------------------------------------------------------------

  /** What the prompt is built from: the rules and the paper's title, authors, year and abstract. */
  datatype PromptInput = PromptInput(rules: string, title: string, author: string, year: string, abstractText: string)

  /**
   * The outcome of one chat call: an exception (HTTP failure, no choices,
   * empty content, malformed JSON) with the time it took, or the usage count,
   * the time taken and the three answer fields, each possibly absent.
   */
  datatype Reply =
    | ApiError(message: string, latencyMs: int)
    | Replied(tokensUsed: int, latencyMs: int, decision: Option<string>, confidence: Option<real>, reason: Option<string>)

  datatype ScreenResult = ScreenResult(key: string, decision: string, confidence: real, reason: string,
                                       tokensUsed: int, latencyMs: int)

  /** screen_paper: no abstract means uncertain without a call; otherwise the reply's answer (the prompt shows the title without braces), or uncertain on an error. */
  function ScreenPaper(e: Entry, rules: string, ask: PromptInput -> Reply): (r: ScreenResult)
    ensures r.key == EntryKey(e)
    ensures Field(e, "abstract") == "" ==> r == ScreenResult(EntryKey(e), "uncertain", 0.0, NoAbstract, 0, 0)
    ensures Field(e, "abstract") != "" ==>
              var reply := ask(PromptInput(rules, Unbraced(Field(e, "title")), Field(e, "author"), Field(e, "year"), Field(e, "abstract")));
              && r.latencyMs == reply.latencyMs
              && (reply.ApiError? ==> r.decision == "uncertain" && r.confidence == 0.0 && r.tokensUsed == 0
                                      && r.reason == "API error: " + reply.message)
              && (reply.Replied? ==> r.decision == reply.decision.GetOr("uncertain")
                                     && r.confidence == reply.confidence.GetOr(0.5)
                                     && r.reason == reply.reason.GetOr("")
                                     && r.tokensUsed == reply.tokensUsed)
  {
    var key := EntryKey(e);
    var abstractText := Field(e, "abstract");
    if abstractText == "" then ScreenResult(key, "uncertain", 0.0, NoAbstract, 0, 0)
    else
      match ask(PromptInput(rules, Unbraced(Field(e, "title")), Field(e, "author"), Field(e, "year"), abstractText))
      case ApiError(msg, latency) => ScreenResult(key, "uncertain", 0.0, "API error: " + msg, 0, latency)
      case Replied(tokens, latency, decision, confidence, reason) =>
        ScreenResult(key, decision.GetOr("uncertain"), confidence.GetOr(0.5), reason.GetOr(""), tokens, latency)
  }

  /** screen_papers_async: one result per entry, in entry order (gather keeps the order of its tasks). */
  function ScreenPapers(entries: seq<Entry>, rules: string, ask: PromptInput -> Reply): (rs: seq<ScreenResult>)
    ensures |rs| == |entries|
    ensures forall i :: 0 <= i < |entries| ==> rs[i] == ScreenPaper(entries[i], rules, ask)
  {
    if entries == [] then []
    else ScreenPapers(entries[..|entries| - 1], rules, ask) + [ScreenPaper(entries[|entries| - 1], rules, ask)]
  }

  // ------------------------------------------------------------------
  // Configuration
  // ------------------------------------------------------------------

  datatype Config = Config(rules: Option<string>, provider: Option<string>, model: Option<string>,
                           concurrency: Option<int>, localBaseUrl: Option<string>)

  /** The model name sent to the provider: OpenAI takes bare names, the local server `vendor/name` ones. */
  function ModelName(provider: string, configured: Option<string>): (m: string)
    ensures provider == "openai" ==>
              (configured.Some? && configured.value != "" ==> configured.value == m || configured.value == "openai/" + m)
    ensures provider == "openai" && (configured.None? || configured.value == "") ==> m == OpenAiDefaultModel
    ensures provider != "openai" ==> '/' in m
    ensures provider != "openai" && configured.Some? && '/' in configured.value ==> m == configured.value
  {
    if provider == "openai" then
      assert OpenAiDefaultModel[0] != 'o';
      var name := OrElse(configured.GetOr(""), OpenAiDefaultModel);
      if StartsWith(name, "openai/") then
        assert name == "openai/" + name[7..];
        name[7..]
      else name
    else
      var name := OrElse(configured.GetOr(""), LocalDefaultModel);
      if '/' !in name then
        assert ("openai/" + name)[6] == '/';
        "openai/" + name
      else name
  }

  /** Normalising a local model name twice changes nothing; a bare OpenAI name is kept as configured. */
  lemma ModelNameStable(configured: string)
    ensures ModelName("local", Some(ModelName("local", Some(configured)))) == ModelName("local", Some(configured))
    ensures configured != "" && !StartsWith(configured, "openai/") ==> ModelName("openai", Some(configured)) == configured
  {
  }

  /** The concurrency: as configured, else 100 for the local server and 10 for OpenAI. */
  function Concurrency(provider: string, configured: Option<int>): (n: int)
    ensures configured.Some? ==> n == configured.value
    ensures configured.None? ==> n == (if provider == "local" then LocalConcurrency else OpenAiConcurrency)
  {
    configured.GetOr(if provider == "local" then LocalConcurrency else OpenAiConcurrency)
  }

  /** The default of the schema's rules choice: the last rule file, or decompile_v4 when there is none. */
  function DefaultRule(ruleIds: seq<string>): (id: string)
    ensures ruleIds == [] ==> id == DefaultRulesId
    ensures ruleIds != [] ==> id in ruleIds && id == ruleIds[|ruleIds| - 1]
  {
    if ruleIds == [] then DefaultRulesId else ruleIds[|ruleIds| - 1]
  }

  // ------------------------------------------------------------------
  // Sorting the judgements
  // ------------------------------------------------------------------

  /** {e.get("ID", ""): e for e in entries}: a later entry wins its ID. */
  function EntryMap(entries: seq<Entry>): (m: map<string, Entry>)
    ensures forall k :: k in m ==> m[k] in entries && FieldOr(m[k], "ID", "") == k
    ensures forall e :: e in entries ==> FieldOr(e, "ID", "") in m
  {
    if entries == [] then map[]
    else
      var init := entries[..|entries| - 1];
      var last := entries[|entries| - 1];
      assert entries == init + [last];
      EntryMap(init)[FieldOr(last, "ID", "") := last]
  }

  /** A result whose key maps to a non-empty entry is used; any other is skipped. */
  predicate Known(m: map<string, Entry>, key: string)
  {
    key in m && m[key] != map[]
  }

  datatype Change = Change(key: string, action: string, reason: string, decision: string, confidence: real,
                           reasoning: string, model: string, tokensUsed: int, latencyMs: int)

  datatype Partitioned = Partitioned(passed: seq<Entry>, excluded: seq<Entry>, uncertain: seq<Entry>,
                                     changes: seq<Change>, skipped: seq<string>, totalTokens: int, totalLatency: int)

  /** The change for a used result: exclude removes, include and anything else keep. */
  function ChangeOf(res: ScreenResult, model: string): (c: Change)
    ensures c.key == res.key && c.decision == res.decision && c.model == model
    ensures c.action == "remove" <==> res.decision == "exclude"
    ensures c.action == "keep" <==> res.decision != "exclude"
    ensures c.reason == "ai_" + res.decision
  {
    Change(res.key, if res.decision == "exclude" then "remove" else "keep", "ai_" + res.decision,
           res.decision, res.confidence, res.reason, model, res.tokensUsed, res.latencyMs)
  }

  /** One result taken into the partition. */
  function Take(p: Partitioned, res: ScreenResult, m: map<string, Entry>, model: string): Partitioned
  {
    if !Known(m, res.key) then p.(skipped := p.skipped + [res.key])
    else
      var e := m[res.key];
      var q := p.(changes := p.changes + [ChangeOf(res, model)],
                  totalTokens := p.totalTokens + res.tokensUsed,
                  totalLatency := p.totalLatency + res.latencyMs);
      if res.decision == "include" then q.(passed := p.passed + [e])
      else if res.decision == "exclude" then q.(excluded := p.excluded + [e])
      else q.(uncertain := p.uncertain + [e])
  }

  /** The loop over the results, as a function of the results so far. */
  function Partition(results: seq<ScreenResult>, m: map<string, Entry>, model: string): (p: Partitioned)
    ensures |p.passed| + |p.excluded| + |p.uncertain| + |p.skipped| == |results|
    ensures |p.changes| == |p.passed| + |p.excluded| + |p.uncertain|
    ensures forall e :: e in p.passed || e in p.excluded || e in p.uncertain ==> e in m.Values
    ensures forall k :: k in p.skipped ==> !Known(m, k)
    ensures forall c :: c in p.changes ==> Known(m, c.key) && c.model == model
    ensures forall c :: c in p.changes ==> (c.action == "remove" <==> c.decision == "exclude")
  {
    if results == [] then Partitioned([], [], [], [], [], 0, 0)
    else Take(Partition(results[..|results| - 1], m, model), results[|results| - 1], m, model)
  }

  /** How many changes carry the action. */
  function CountAction(changes: seq<Change>, action: string): (n: nat)
    ensures n <= |changes|
  {
    if changes == [] then 0
    else CountAction(changes[..|changes| - 1], action) + (if changes[|changes| - 1].action == action then 1 else 0)
  }

  /** Exactly the excluded entries are removed; passed and uncertain ones are kept. */
  lemma {:induction false} RemovalsAreExclusions(results: seq<ScreenResult>, m: map<string, Entry>, model: string)
    ensures var p := Partition(results, m, model);
            && CountAction(p.changes, "remove") == |p.excluded|
            && CountAction(p.changes, "keep") == |p.passed| + |p.uncertain|
    decreases |results|
  {
    if results != [] {
      var prev := Partition(results[..|results| - 1], m, model);
      RemovalsAreExclusions(results[..|results| - 1], m, model);
      var res := results[|results| - 1];
      if Known(m, res.key) {
        var c := ChangeOf(res, model);
        CountActionSnoc(prev.changes, c, "remove");
        CountActionSnoc(prev.changes, c, "keep");
      }
    }
  }

  /** Appending a change counts it under its own action only. */
  lemma CountActionSnoc(changes: seq<Change>, c: Change, action: string)
    ensures CountAction(changes + [c], action) == CountAction(changes, action) + (if c.action == action then 1 else 0)
  {
    assert (changes + [c])[..|changes|] == changes;
  }

  /** A result whose key matches no entry ends up among the skipped keys. */
  lemma {:induction false} UnknownSkipped(results: seq<ScreenResult>, m: map<string, Entry>, model: string, i: nat)
    requires i < |results| && !Known(m, results[i].key)
    ensures results[i].key in Partition(results, m, model).skipped
    decreases |results|
  {
    var n := |results| - 1;
    if i < n {
      assert results[..n][i] == results[i];
      UnknownSkipped(results[..n], m, model, i);
    }
  }

  /** When every result's key matches an entry, nothing is skipped. */
  lemma {:induction false} AllKnownNoneSkipped(results: seq<ScreenResult>, m: map<string, Entry>, model: string)
    requires forall i :: 0 <= i < |results| ==> Known(m, results[i].key)
    ensures Partition(results, m, model).skipped == []
    decreases |results|
  {
    if results != [] {
      AllKnownNoneSkipped(results[..|results| - 1], m, model);
    }
  }

  /** Entries that all carry an ID are all judged: the three outputs together hold one entry per input. */
  lemma EveryIdJudged(entries: seq<Entry>, rules: string, ask: PromptInput -> Reply, model: string)
    requires forall e :: e in entries ==> "ID" in e
    ensures var p := Partition(ScreenPapers(entries, rules, ask), EntryMap(entries), model);
            p.skipped == [] && |p.passed| + |p.excluded| + |p.uncertain| == |entries|
  {
    var results := ScreenPapers(entries, rules, ask);
    var m := EntryMap(entries);
    forall i | 0 <= i < |results|
      ensures Known(m, results[i].key)
    {
      var e := entries[i];
      assert results[i].key == e["ID"];
      assert FieldOr(e, "ID", "") in m;
      assert "ID" in m[e["ID"]];
    }
    AllKnownNoneSkipped(results, m, model);
  }

  /**
   * An entry without an ID is judged under the key "unknown" but looked up
   * under "", so unless some entry's ID is "unknown" its judgement is skipped
   * and it reaches none of the outputs.
   */
  lemma MissingIdSkipped(entries: seq<Entry>, rules: string, ask: PromptInput -> Reply, model: string, i: nat)
    requires i < |entries| && "ID" !in entries[i]
    requires forall e :: e in entries ==> FieldOr(e, "ID", "") != "unknown"
    ensures "unknown" in Partition(ScreenPapers(entries, rules, ask), EntryMap(entries), model).skipped
  {
    var results := ScreenPapers(entries, rules, ask);
    var m := EntryMap(entries);
    assert results[i].key == "unknown";
    assert "unknown" !in m;
    UnknownSkipped(results, m, model, i);
  }

  /** One more result extends the partition by Take. */
  lemma PartitionSnoc(results: seq<ScreenResult>, i: nat, m: map<string, Entry>, model: string)
    requires i < |results|
    ensures Partition(results[..i + 1], m, model) == Take(Partition(results[..i], m, model), results[i], m, model)
  {
    assert results[..i + 1][..i] == results[..i];
  }

  /** The loop of run over the judgements: each is skipped, or sorted by its decision with its change recorded. */
  method Sort(results: seq<ScreenResult>, m: map<string, Entry>, model: string) returns (p: Partitioned)
    ensures p == Partition(results, m, model)
  {
    p := Partitioned([], [], [], [], [], 0, 0);
    var i := 0;
    while i < |results|
      invariant 0 <= i <= |results|
      invariant p == Partition(results[..i], m, model)
    {
      PartitionSnoc(results, i, m, model);
      var res := results[i];
      if !Known(m, res.key) {
        p := p.(skipped := p.skipped + [res.key]);
      } else {
        var e := m[res.key];
        p := p.(changes := p.changes + [ChangeOf(res, model)],
                totalTokens := p.totalTokens + res.tokensUsed,
                totalLatency := p.totalLatency + res.latencyMs);
        if res.decision == "include" {
          p := p.(passed := p.passed + [e]);
        } else if res.decision == "exclude" {
          p := p.(excluded := p.excluded + [e]);
        } else {
          p := p.(uncertain := p.uncertain + [e]);
        }
      }
      i := i + 1;
    }
    assert results[..i] == results;
  }

  // ------------------------------------------------------------------
  // The step
  // ------------------------------------------------------------------

  datatype Details = Details(totalInput: nat, passedCount: nat, excludedCount: nat, uncertainCount: nat,
                             skippedCount: nat, model: string, provider: string, concurrency: int,
                             totalTokens: int, totalLatencyMs: int, rulesId: string)

  datatype StepResult = StepResult(passed: seq<Entry>, excluded: seq<Entry>, uncertain: seq<Entry>,
                                   changes: seq<Change>, details: Details)

  /**
   * AIScreeningHandler.run: settle model, provider and concurrency, load the
   * rules (a missing file is an error), refuse OpenAI without an API key,
   * judge every entry and sort the judgements.
   */
  method Run(entries: seq<Entry>, config: Config, rulesFile: string -> Option<string>, apiKey: Option<string>,
             ask: PromptInput -> Reply) returns (r: Result<StepResult, string>)
    ensures var rulesId := config.rules.GetOr(DefaultRulesId);
            var provider := config.provider.GetOr("local");
            && (rulesFile(rulesId).None? ==> r == Err("Rules file not found: " + rulesId))
            && (rulesFile(rulesId).Some? && provider != "local" && apiKey.GetOr("") == "" ==> r == Err("OPENAI_API_KEY not set"))
            && (r.Ok? ==> rulesFile(rulesId).Some?)
    ensures r.Ok? ==>
              var rulesId := config.rules.GetOr(DefaultRulesId);
              var provider := config.provider.GetOr("local");
              var model := ModelName(provider, config.model);
              var p := Partition(ScreenPapers(entries, rulesFile(rulesId).value, ask), EntryMap(entries), model);
              && r.value.passed == p.passed && r.value.excluded == p.excluded && r.value.uncertain == p.uncertain
              && r.value.changes == p.changes
              && r.value.details == Details(|entries|, |p.passed|, |p.excluded|, |p.uncertain|, |p.skipped|,
                                            model, provider, Concurrency(provider, config.concurrency),
                                            p.totalTokens, p.totalLatency, rulesId)
  {
    var rulesId := config.rules.GetOr(DefaultRulesId);
    var provider := config.provider.GetOr("local");
    var model := ModelName(provider, config.model);
    var concurrency := Concurrency(provider, config.concurrency);
    var rules := rulesFile(rulesId);
    if rules.None? {
      return Err("Rules file not found: " + rulesId);
    }
    if provider != "local" && apiKey.GetOr("") == "" {
      return Err("OPENAI_API_KEY not set");
    }
    var p := Sort(ScreenPapers(entries, rules.value, ask), EntryMap(entries), model);
    var details := Details(|entries|, |p.passed|, |p.excluded|, |p.uncertain|, |p.skipped|,
                           model, provider, concurrency, p.totalTokens, p.totalLatency, rulesId);
    return Ok(StepResult(p.passed, p.excluded, p.uncertain, p.changes, details));
  }
}
