/**
 * The run method of the PDF fetch step (PdfFetchStepHandler.run in
 * app/backend/step_handlers/pdf_fetch.py): for each entry in turn, try the
 * cached record, then a local file, then the web candidates, then browser
 * assist, and otherwise record the entry as missing; finally split the
 * entries by outcome and choose what passes by the pass mode.
 */
module PdfFetchStep {
  import opened Wrappers
  import opened Text
  import opened PdfLibrary
  import opened Bib
  import opened PdfFetch

  /** How BrowserAssistSession.resolve_pdf ended for one entry. */
  datatype AssistOutcome = AssistFound(fetched: Fetched, provider: string) | AssistNothing | AssistRaised(message: string)

  /**
   * What the filesystem, the web and the browser answer while one entry is
   * processed.
   */
  datatype World = World(
    existing: set<string>,
    cachedSample: Option<seq<byte>>,
    localPaths: seq<string>,
    lookups: seq<Proposal>,
    responses: string -> Option<Response>,
    landing: Landing,
    assist: AssistOutcome,
    sizeOf: string -> Option<int>,
    managedPath: string -> string,
    now: string)

  /** The settings of one run that the entries share. */
  datatype Settings = Settings(reuseCache: bool, downloadEnabled: bool, maxPdfMb: int, projectId: string, stepId: string)

  /** Browser assist across entries: still enabled, and whether a session is open. */
  datatype Browser = Browser(enabled: bool, open: bool)

  /** The counters of run. */
  datatype Tally = Tally(cacheHits: nat, localHits: nat, downloaded: nat,
                         assistAttempted: nat, assistResolved: nat, assistErrors: nat, assistAvailable: bool)

  /** Where an entry stands while the sources are tried. */
  datatype Progress = Progress(found: bool, source: Option<string>, provider: Option<string>,
                               sourceUrl: Option<string>, pdfPath: Option<string>, recordId: Option<string>,
                               key: Option<string>)

  /** The details run reports for one entry. */
  datatype EntryOutcome = EntryOutcome(
    found: bool,
    source: Option<string>,
    provider: Option<string>,
    sourceUrl: Option<string>,
    pdfPath: Option<string>,
    recordId: Option<string>,
    doi: Option<string>,
    cacheKey: Option<string>,
    browserUsed: bool,
    browserResult: Option<string>,
    missingReason: Option<string>,
    attempted: set<string>,
    candidateCount: nat)

  const Sources: set<string> := {"cache", "local_file", "download", "browser_assist"}

  /** The record id run reports: the marked record's id, else the one known before. */
  function IdOr(id: string, before: Option<string>): (r: Option<string>)
    ensures id != "" ==> r == Some(id)
  {
    if id != "" then Some(id) else before
  }

  /** Only a found entry names the source it was found in. */
  predicate Sourced(p: Progress)
  {
    p.found <==> p.source.Some?
  }

  /** A found entry whose key is recorded has a found record under that key. */
  ghost predicate Recorded(records: map<string, Slot>, p: Progress)
  {
    p.found && p.key.Some? ==> p.key.value in records && records[p.key.value].Rec?
                                && records[p.key.value].record.status == "found"
  }

  /**
   * is_cached_pdf_likely_for_doi: true without a DOI or when the file
   * cannot be read; otherwise the DOI check on the sample and source URL.
   */
  predicate CachedLikely(sample: Option<seq<byte>>, sourceUrl: Option<string>, doi: Option<string>)
  {
    doi.None? || doi.value == "" || sample.None? || IsPdfLikelyForDoi(sample.value, sourceUrl.GetOr(""), doi)
  }

  /** The cached record is reused: found, with a path that exists and a body that matches the DOI. */
  predicate CacheUsable(records: map<string, Slot>, key: Option<string>, reuse: bool, w: World, doi: Option<string>)
  {
    key.Some? && reuse && key.value in records && records[key.value].Rec?
    && var c := records[key.value].record;
       c.status == "found" && c.pdfPath.Some? && c.pdfPath.value != "" && c.pdfPath.value in w.existing
       && CachedLikely(w.cachedSample, c.sourceUrl, doi)
  }

  /** The key a download is stored under: the canonical key, else `url:` of the final URL, else `entry:` of the entry key. */
  function DownloadKey(key: Option<string>, finalUrl: string, entryKey: string): (r: string)
    ensures key.Some? ==> r == key.value
  {
    if key.Some? then key.value
    else match NormalizeUrl(Some(finalUrl))
      case Some(u) => "url:" + u
      case None => "entry:" + entryKey
  }

  /** The cache check: reuse a found record whose file exists and fits the DOI. */
  method CacheStep(index: PdfIndex, key: Option<string>, doi: Option<string>, title: string, entryKey: string,
                   s: Settings, w: World)
    returns (p: Progress)
    requires index.Valid()
    modifies index
    ensures index.Valid() && Recorded(index.records, p) && Sourced(p)
    ensures p.key == key
    ensures p.found <==> CacheUsable(old(index.records), key, s.reuseCache, w, doi)
    ensures p.found ==> p.source == Some("cache")
    ensures !p.found ==> index.records == old(index.records) && index.order == old(index.order)
  {
    p := Progress(false, None, None, None, None, None, key);
    if !CacheUsable(index.records, key, s.reuseCache, w, doi) {
      return;
    }
    var c := index.records[key.value].record;
    var path := c.pdfPath.value;
    var rec := index.MarkFound(key.value, title, "", "", path, c.managedFile, "cache", c.sourceUrl, c.provider,
                               c.contentType, w.sizeOf(path), s.projectId, s.stepId, entryKey, w.now);
    p := Progress(true, Some("cache"), c.provider, c.sourceUrl, Some(path), IdOr(rec.id, IdOr(c.id, None)), key);
  }

  /** The local check: the first PDF the entry's file fields point at. */
  method LocalStep(index: PdfIndex, p: Progress, title: string, entryKey: string, s: Settings, w: World)
    returns (p': Progress)
    requires index.Valid() && Recorded(index.records, p) && Sourced(p)
    modifies index
    ensures index.Valid() && Recorded(index.records, p') && Sourced(p')
    ensures p'.key == p.key
    ensures p.found ==> p' == p && index.records == old(index.records)
    ensures !p.found ==> (p'.found <==> |w.localPaths| > 0)
    ensures !p.found && p'.found ==> p'.source == Some("local_file") && p'.provider == Some("local")
    ensures !p'.found ==> index.records == old(index.records) && index.order == old(index.order)
  {
    p' := p;
    if p.found || |w.localPaths| == 0 {
      return;
    }
    var path := w.localPaths[0];
    var recordId := p.recordId;
    if p.key.Some? {
      var rec := index.MarkFound(p.key.value, title, "", "", path, false, "local_file", None, Some("local"),
                                 Some("application/pdf"), w.sizeOf(path), s.projectId, s.stepId, entryKey, w.now);
      recordId := IdOr(rec.id, recordId);
    }
    p' := Progress(true, Some("local_file"), Some("local"), p.sourceUrl, Some(path), recordId, p.key);
  }

  /** Stores a downloaded body under its key and marks the record found. */
  method StoreDownload(index: PdfIndex, p: Progress, fetched: Fetched, provider: string, source: string,
                       title: string, entryKey: string, s: Settings, w: World)
    returns (p': Progress)
    requires index.Valid()
    modifies index
    ensures index.Valid() && Recorded(index.records, p')
    ensures p'.found && p'.source == Some(source) && p'.provider == Some(provider)
    ensures p'.sourceUrl == Some(fetched.finalUrl)
    ensures p'.key == Some(DownloadKey(p.key, fetched.finalUrl, entryKey))
  {
    var key := DownloadKey(p.key, fetched.finalUrl, entryKey);
    var target := w.managedPath(key);
    var rec := index.MarkFound(key, title, "", "", target, true, source, Some(fetched.finalUrl), Some(provider),
                               Some(fetched.contentType), w.sizeOf(target), s.projectId, s.stepId, entryKey, w.now);
    p' := Progress(true, Some(source), Some(provider), Some(fetched.finalUrl), Some(target), IdOr(rec.id, p.recordId),
                   Some(key));
  }

  /** fetch_pdf_bytes against the web: what each candidate URL gives, once the size limit and PDF checks are applied. */
  function FetchOf(responses: string -> Option<Response>, maxPdfMb: int): (f: string -> Option<Fetched>)
    ensures forall u :: f(u) == AcceptFetch(responses(u), maxPdfMb)
  {
    u => AcceptFetch(responses(u), maxPdfMb)
  }

  /** The web step: collect the candidates and walk them until one downloads. */
  method DownloadStep(index: PdfIndex, p: Progress, entry: Entry, doi: Option<string>, title: string, entryKey: string,
                      s: Settings, w: World)
    returns (p': Progress, attempted: set<string>, candidates: seq<Candidate>)
    requires index.Valid() && Recorded(index.records, p) && Sourced(p)
    modifies index
    ensures index.Valid() && Recorded(index.records, p') && Sourced(p')
    ensures p.found || !s.downloadEnabled ==> p' == p && attempted == {} && candidates == []
    ensures p'.found ==> p.found || p'.source == Some("download")
    ensures p'.key.Some? <== p.key.Some?
    ensures !p'.found ==> p'.key == p.key && index.records == old(index.records) && index.order == old(index.order)
    ensures !p.found && s.downloadEnabled && !p'.found ==>
              UrlsDistinct(candidates) && AllFail(candidates, FetchOf(w.responses, s.maxPdfMb)) && Providers(candidates) == attempted
  {
    p' := p;
    attempted := {};
    candidates := [];
    if p.found || !s.downloadEnabled {
      return;
    }
    var q := CollectCandidateUrls(entry, doi, w.lookups);
    var hit, tried;
    hit, tried, attempted := DownloadLoop(q, FetchOf(w.responses, s.maxPdfMb), w.landing);
    candidates := q.candidates;
    if hit.None? {
      assert candidates[..tried] == candidates;
      return;
    }
    var (fetched, provider) := hit.value;
    p' := StoreDownload(index, p, fetched, provider, "download", title, entryKey, s, w);
  }

  /** What browser assist left for the entry. */
  datatype AssistReport = AssistReport(used: bool, result: Option<string>, reason: string)

  /**
   * The browser-assist step: only for an entry still missing, with
   * downloads and browser assist enabled and a DOI or URL to start from.
   * The session is opened once; when it cannot start, browser assist is
   * switched off for the rest of the run.
   */
  method BrowserStep(index: PdfIndex, p: Progress, doi: Option<string>, entryUrl: string, title: string,
                     entryKey: string, s: Settings, w: World, b: Browser, browserStarts: bool, t: Tally)
    returns (p': Progress, report: AssistReport, b': Browser, t': Tally)
    requires index.Valid() && Recorded(index.records, p) && Sourced(p)
    modifies index
    ensures index.Valid() && Recorded(index.records, p') && Sourced(p')
    ensures report.used <==> !p.found && s.downloadEnabled && b.enabled && ((doi.Some? && doi.value != "") || entryUrl != "")
    ensures !report.used ==> p' == p && b' == b && t' == t && report.reason == "not_found"
                             && index.records == old(index.records)
    ensures report.used ==> t'.assistAttempted == t.assistAttempted + 1
    ensures !report.used ==> t'.assistAttempted == t.assistAttempted
    ensures p'.found ==> p.found || (report.used && p'.source == Some("browser_assist"))
    ensures p'.found && !p.found ==> t'.assistResolved == t.assistResolved + 1 && t'.downloaded == t.downloaded + 1
    ensures !(p'.found && !p.found) ==> t'.assistResolved == t.assistResolved && t'.downloaded == t.downloaded
    ensures t'.cacheHits == t.cacheHits && t'.localHits == t.localHits
    ensures p'.key.Some? <== p.key.Some?
    ensures !p'.found ==> p'.key == p.key && index.records == old(index.records) && index.order == old(index.order)
    ensures !p'.found ==> report.reason in ReasonLabels && report.reason in ReasonHints
    ensures report.used && !p'.found ==> report.reason != "not_found" && report.result.Some?
    ensures b.open ==> b'.open
    ensures !b.open && !browserStarts ==> !b'.open
    ensures t.assistAvailable ==> t'.assistAvailable
    ensures t'.assistAvailable ==> t.assistAvailable || b'.open
    ensures !b.enabled ==> !b'.enabled
    ensures !b.open && !browserStarts && report.used ==> !b'.enabled
  {
    p' := p;
    b' := b;
    t' := t;
    report := AssistReport(false, None, "not_found");
    if p.found || !s.downloadEnabled || !b.enabled || !((doi.Some? && doi.value != "") || entryUrl != "") {
      return;
    }
    t' := t'.(assistAttempted := t'.assistAttempted + 1);
    report := report.(used := true);
    if !b'.open {
      if browserStarts {
        b' := b'.(open := true);
        t' := t'.(assistAvailable := true);
      } else {
        t' := t'.(assistErrors := t'.assistErrors + 1);
        b' := b'.(enabled := false);
        report := report.(reason := "browser_assist_unavailable", result := Some("unavailable"));
      }
    }
    if b'.open {
      var assisted: Option<(Fetched, string)> := None;
      match w.assist {
        case AssistRaised(_) =>
          t' := t'.(assistErrors := t'.assistErrors + 1);
          report := report.(reason := "browser_assist_error", result := Some("error"));
        case AssistNothing =>
        case AssistFound(f, prov) =>
          assisted := Some((f, prov));
      }
      if assisted.Some? {
        var (fetched, provider) := assisted.value;
        p' := StoreDownload(index, p, fetched, provider, "browser_assist", title, entryKey, s, w);
        t' := t'.(downloaded := t'.downloaded + 1, assistResolved := t'.assistResolved + 1);
        report := report.(result := Some("resolved"));
      } else {
        if report.reason == "not_found" {
          report := report.(reason := "browser_assist_unresolved");
        }
        if report.result.None? {
          report := report.(result := Some("unresolved"));
        }
      }
    }
  }

  /** Who an entry is: its entry key, title, DOI and the key its record is stored under. */
  datatype Identity = Identity(entryKey: string, title: string, doi: Option<string>, key: Option<string>)

  /**
   * The identity run derives for entry number `no`: `ID` or `row_<no>`, the
   * guessed title, the normalised DOI, and the canonical key, replaced by
   * `doi:<DOI>` when there is a DOI.
   */
  function EntryIdentity(no: nat, entry: Entry): (r: Identity)
    ensures r.doi == EntryDoi(entry) && r.key == CanonicalKey(entry)
    ensures r.entryKey == EntryKey(no, entry)
  {
    var doi := EntryDoi(entry);
    var key := if doi.Some? then Some("doi:" + doi.value) else CanonicalKey(entry);
    Identity(EntryKey(no, entry), GuessTitle(entry), doi, key)
  }

  /** The entry key of entry number `no`: its `ID`, else `row_<no>`; never empty. */
  function EntryKey(no: nat, entry: Entry): (r: string)
    ensures r != ""
    ensures Field(entry, "ID") != "" ==> r == Field(entry, "ID")
    ensures Field(entry, "ID") == "" ==> r == "row_" + NatToString(no)
  {
    OrElse(Field(entry, "ID"), "row_" + NatToString(no))
  }

  /**
   * The missing step: an entry no source resolved gets its reason (a bare
   * `not_found` becomes `pdf_not_resolved`) and, when it has a key, a
   * missing record with that reason.
   */
  method MissingStep(index: PdfIndex, p: Progress, reason: string, id: Identity, s: Settings, w: World)
    returns (missing: Option<string>)
    requires index.Valid() && Recorded(index.records, p)
    requires !p.found ==> reason in ReasonLabels && reason in ReasonHints
    modifies index
    ensures index.Valid()
    ensures p.found ==> missing.None? && index.records == old(index.records)
    ensures !p.found ==> missing.Some? && missing.value in ReasonLabels && missing.value in ReasonHints
                         && missing.value != "not_found"
    ensures !p.found && reason != "not_found" ==> missing == Some(reason)
    ensures p.key.Some? ==> p.key.value in index.records && index.records[p.key.value].Rec?
    ensures p.found && p.key.Some? ==> index.records[p.key.value].record.status == "found"
    ensures !p.found && p.key.Some? ==> index.records[p.key.value].record.status == "missing"
                                        && index.records[p.key.value].record.missingReason == missing
  {
    if p.found {
      return None;
    }
    var r := if reason == "not_found" then "pdf_not_resolved" else reason;
    missing := Some(r);
    if p.key.Some? {
      var rec := index.MarkMissing(p.key.value, id.title, "", "", r, s.projectId, s.stepId, id.entryKey, w.now);
    }
  }

  /**
   * The sources tried in order for an entry of known identity, and the
   * missing record when none of them gives a PDF.
   */
  method ResolveKeyed(index: PdfIndex, id: Identity, entry: Entry, entryUrl: string, s: Settings, w: World,
                      b: Browser, browserStarts: bool, t: Tally)
    returns (out: EntryOutcome, b': Browser, t': Tally)
    requires index.Valid()
    modifies index
    ensures index.Valid()
    ensures out.found ==> out.missingReason.None? && out.source.Some? && out.source.value in Sources
    ensures !out.found ==> out.missingReason.Some? && out.missingReason.value in ReasonLabels
                           && out.missingReason.value in ReasonHints && out.missingReason.value != "not_found"
    ensures CacheUsable(old(index.records), id.key, s.reuseCache, w, id.doi) ==> out.found && out.source == Some("cache")
    ensures out.source == Some("download") ==> s.downloadEnabled
    ensures out.browserUsed ==> s.downloadEnabled && b.enabled
    ensures t'.cacheHits + t'.localHits + t'.downloaded == t.cacheHits + t.localHits + t.downloaded + (if out.found then 1 else 0)
    ensures t'.assistAttempted == t.assistAttempted + (if out.browserUsed then 1 else 0)
    ensures t'.assistResolved - t.assistResolved <= t'.assistAttempted - t.assistAttempted
    ensures t'.assistResolved >= t.assistResolved
    ensures b.open ==> b'.open
    ensures !b.open && !browserStarts ==> !b'.open
    ensures t'.assistAvailable ==> t.assistAvailable || b'.open
    ensures !b.enabled ==> !b'.enabled
    ensures !b.open && !browserStarts && out.browserUsed ==> !b'.enabled
    ensures out.cacheKey.Some? ==> out.cacheKey.value in index.records && index.records[out.cacheKey.value].Rec?
    ensures out.found && out.cacheKey.Some? ==> index.records[out.cacheKey.value].record.status == "found"
    ensures !out.found ==> out.cacheKey == id.key
    ensures !out.found && out.cacheKey.Some? ==>
              index.records[out.cacheKey.value].record.status == "missing"
              && index.records[out.cacheKey.value].record.missingReason == out.missingReason
  {
    var p := CacheStep(index, id.key, id.doi, id.title, id.entryKey, s, w);
    var cacheHit := p.found;
    p := LocalStep(index, p, id.title, id.entryKey, s, w);
    var localHit := p.found && !cacheHit;
    var beforeWeb := p.found;
    var attempted, candidates;
    p, attempted, candidates := DownloadStep(index, p, entry, id.doi, id.title, id.entryKey, s, w);
    var downloaded := p.found && !beforeWeb;
    t' := t.(cacheHits := t.cacheHits + (if cacheHit then 1 else 0),
             localHits := t.localHits + (if localHit then 1 else 0),
             downloaded := t.downloaded + (if downloaded then 1 else 0));
    var report;
    p, report, b', t' := BrowserStep(index, p, id.doi, entryUrl, id.title, id.entryKey, s, w, b, browserStarts, t');
    var reason := MissingStep(index, p, report.reason, id, s, w);
    out := EntryOutcome(p.found, p.source, p.provider, p.sourceUrl, p.pdfPath, p.recordId, id.doi, p.key,
                        report.used, report.result, reason, attempted, |candidates|);
  }

  /**
   * One entry of run: derive its identity (EntryIdentity), then try the
   * sources in order (ResolveKeyed).
   */
  method ResolveEntry(index: PdfIndex, no: nat, entry: Entry, s: Settings, w: World, b: Browser, browserStarts: bool,
                      t: Tally)
    returns (entryKey: string, out: EntryOutcome, b': Browser, t': Tally)
    requires index.Valid()
    modifies index
    ensures index.Valid()
    ensures entryKey == EntryKey(no, entry)
    ensures out.found <==> out.missingReason.None?
    ensures out.found ==> out.source.Some? && out.source.value in Sources
    ensures !out.found ==> out.missingReason.value in ReasonLabels && out.missingReason.value != "not_found"
    ensures out.browserUsed ==> s.downloadEnabled && b.enabled
    ensures t'.cacheHits + t'.localHits + t'.downloaded == t.cacheHits + t.localHits + t.downloaded + (if out.found then 1 else 0)
    ensures t'.assistAttempted == t.assistAttempted + (if out.browserUsed then 1 else 0)
    ensures t.assistResolved <= t'.assistResolved
    ensures t'.assistResolved - t.assistResolved <= t'.assistAttempted - t.assistAttempted
    ensures b.open ==> b'.open
    ensures !b.open && !browserStarts ==> !b'.open
    ensures t'.assistAvailable ==> t.assistAvailable || b'.open
    ensures !b.enabled ==> !b'.enabled
    ensures !b.open && !browserStarts && out.browserUsed ==> !b'.enabled
  {
    var id := EntryIdentity(no, entry);
    entryKey := id.entryKey;
    out, b', t' := ResolveKeyed(index, id, entry, Strip(Field(entry, "url")), s, w, b, browserStarts, t);
  }

  /** The step configuration as given; a missing key is None. */
  datatype RunConfig = RunConfig(
    passMode: Option<string>,
    reuseCache: Option<bool>,
    downloadEnabled: Option<bool>,
    maxPdfMb: Option<int>,
    browserAssistEnabled: Option<bool>,
    projectId: Option<string>,
    stepId: Option<string>)

  /** The pass mode run uses: the stripped setting when it is `all` or `pdf_only`, else `all`. */
  function NormalizePassMode(raw: Option<string>): (r: string)
    ensures r == "all" || r == "pdf_only"
    ensures r == "pdf_only" <==> raw.Some? && Strip(raw.value) == "pdf_only"
  {
    var m := Strip(raw.GetOr("all"));
    if m == "all" || m == "pdf_only" then m else "all"
  }

  /** Whether browser assist runs: the setting, which defaults to on. */
  function AssistEnabledSetting(c: RunConfig): (r: bool)
    ensures c.browserAssistEnabled.None? ==> r
    ensures c.browserAssistEnabled.Some? ==> r == c.browserAssistEnabled.value
  {
    c.browserAssistEnabled.GetOr(true)
  }

  /** The `browser_assist.enabled` statistic as written: the setting read with a default of off. */
  function ReportedAssistEnabledAsWritten(c: RunConfig): (r: bool)
    ensures c.browserAssistEnabled.None? ==> !r
    ensures c.browserAssistEnabled.Some? ==> r == c.browserAssistEnabled.value
  {
    c.browserAssistEnabled.GetOr(false)
  }

  /** Without the setting, browser assist runs while the statistic reports it disabled. */
  lemma ReportedAssistEnabledDisagrees(c: RunConfig)
    requires c.browserAssistEnabled.None?
    ensures AssistEnabledSetting(c) && !ReportedAssistEnabledAsWritten(c)
  {
  }

  /** The `browser_assist.enabled` statistic, read with the default the run itself uses. */
  function ReportedAssistEnabled(c: RunConfig): (r: bool)
    ensures r == AssistEnabledSetting(c)
  {
    c.browserAssistEnabled.GetOr(true)
  }

  /** The settings shared by the entries: defaults on, 50 MB, and blank ids as none. */
  function SettingsOf(c: RunConfig): (s: Settings)
    ensures s.reuseCache == c.reuseCache.GetOr(true) && s.downloadEnabled == c.downloadEnabled.GetOr(true)
    ensures s.maxPdfMb == c.maxPdfMb.GetOr(50)
    ensures s.projectId == Strip(c.projectId.GetOr("")) && s.stepId == Strip(c.stepId.GetOr(""))
  {
    Settings(c.reuseCache.GetOr(true), c.downloadEnabled.GetOr(true), c.maxPdfMb.GetOr(50),
             Strip(c.projectId.GetOr("")), Strip(c.stepId.GetOr("")))
  }

  /** A change run records for an entry. */
  datatype Change = Change(key: string, action: string, reason: string, outcome: EntryOutcome)

  /** The entries whose outcome has the given `found`, in input order. */
  function Select<T>(entries: seq<T>, outs: seq<EntryOutcome>, found: bool): (r: seq<T>)
    requires |outs| == |entries|
    ensures |r| <= |entries|
    decreases |entries|
  {
    if entries == [] then []
    else
      var n := |entries| - 1;
      Select(entries[..n], outs[..n], found) + (if outs[n].found == found then [entries[n]] else [])
  }

  /** The found and the missing entries are the input, split in two. */
  lemma {:induction false} SelectPartition<T>(entries: seq<T>, outs: seq<EntryOutcome>)
    requires |outs| == |entries|
    ensures multiset(Select(entries, outs, true)) + multiset(Select(entries, outs, false)) == multiset(entries)
    decreases |entries|
  {
    if entries != [] {
      var n := |entries| - 1;
      var pe, po := entries[..n], outs[..n];
      assert entries == pe + [entries[n]] && outs == po + [outs[n]];
      SelectPartition(pe, po);
      SelectSnoc(pe, po, entries[n], outs[n], true);
      SelectSnoc(pe, po, entries[n], outs[n], false);
    }
  }

  /** So the found and the missing entries together are as many as the input. */
  lemma SelectCount<T>(entries: seq<T>, outs: seq<EntryOutcome>)
    requires |outs| == |entries|
    ensures |Select(entries, outs, true)| + |Select(entries, outs, false)| == |entries|
  {
    SelectPartition(entries, outs);
    assert |multiset(Select(entries, outs, true))| == |Select(entries, outs, true)|;
    assert |multiset(Select(entries, outs, false))| == |Select(entries, outs, false)|;
  }

  /** Appending one entry with its outcome extends exactly one of the two selections. */
  lemma SelectSnoc<T>(entries: seq<T>, outs: seq<EntryOutcome>, e: T, o: EntryOutcome, found: bool)
    requires |outs| == |entries|
    ensures Select(entries + [e], outs + [o], found)
            == Select(entries, outs, found) + (if o.found == found then [e] else [])
  {
    assert (entries + [e])[..|entries|] == entries;
    assert (outs + [o])[..|outs|] == outs;
  }

  /** What run returns. */
  datatype RunResult = RunResult(
    passMode: string,
    passed: seq<Entry>,
    found: seq<Entry>,
    missing: seq<Entry>,
    outcomes: seq<EntryOutcome>,
    changes: seq<Change>,
    changesAll: seq<Change>,
    changesPdfOnly: seq<Change>,
    removedCount: int,
    tally: Tally,
    reportedEnabled: bool)

  /** A change of the `all` mode: every entry is kept. */
  function ChangeAll(key: string, out: EntryOutcome): (c: Change)
    ensures c.action == "keep" && c.key == key && c.outcome == out
    ensures c.reason == "pdf_available" <==> out.found
  {
    Change(key, "keep", if out.found then "pdf_available" else "pdf_missing_passed", out)
  }

  /** A change of the `pdf_only` mode: an entry without a PDF is removed. */
  function ChangePdfOnly(key: string, out: EntryOutcome): (c: Change)
    ensures c.key == key && c.outcome == out
    ensures c.action == "remove" <==> !out.found
    ensures c.action == "keep" <==> out.found
  {
    if out.found then Change(key, "keep", "pdf_available", out) else Change(key, "remove", "pdf_missing", out)
  }

  /** SelectSnoc for the next prefix of the input. */
  lemma SelectExtend<T>(entries: seq<T>, i: nat, outs: seq<EntryOutcome>, o: EntryOutcome, found: bool)
    requires i < |entries| && |outs| == i
    ensures Select(entries[..i + 1], outs + [o], found)
            == Select(entries[..i], outs, found) + (if o.found == found then [entries[i]] else [])
  {
    assert entries[..i + 1] == entries[..i] + [entries[i]];
    SelectSnoc(entries[..i], outs, entries[i], o, found);
  }

  /** ChangesSnoc for the next prefix of the input. */
  lemma ChangesExtend(entries: seq<Entry>, i: nat, outs: seq<EntryOutcome>, o: EntryOutcome, pdfOnly: bool)
    requires i < |entries| && |outs| == i
    ensures ChangesOf(KeysOf(entries[..i + 1]), outs + [o], pdfOnly)
            == ChangesOf(KeysOf(entries[..i]), outs, pdfOnly)
               + [if pdfOnly then ChangePdfOnly(EntryKey(i, entries[i]), o) else ChangeAll(EntryKey(i, entries[i]), o)]
  {
    assert entries[..i + 1][..i] == entries[..i];
    assert KeysOf(entries[..i + 1]) == KeysOf(entries[..i]) + [EntryKey(i, entries[i])];
    ChangesSnoc(KeysOf(entries[..i]), outs, EntryKey(i, entries[i]), o, pdfOnly);
  }

  /** The entry keys of the entries, numbered from 0. */
  function KeysOf(entries: seq<Entry>): (r: seq<string>)
    ensures |r| == |entries|
  {
    if entries == [] then [] else KeysOf(entries[..|entries| - 1]) + [EntryKey(|entries| - 1, entries[|entries| - 1])]
  }

  /** The changes of one mode, one per entry key and outcome. */
  function ChangesOf(keys: seq<string>, outs: seq<EntryOutcome>, pdfOnly: bool): (r: seq<Change>)
    requires |keys| == |outs|
    ensures |r| == |keys|
  {
    if keys == [] then []
    else
      var n := |keys| - 1;
      ChangesOf(keys[..n], outs[..n], pdfOnly) + [if pdfOnly then ChangePdfOnly(keys[n], outs[n]) else ChangeAll(keys[n], outs[n])]
  }

  /** Entry i's key is EntryKey of its number and fields. */
  lemma {:induction false} KeysOfAt(entries: seq<Entry>, i: nat)
    requires i < |entries|
    ensures KeysOf(entries)[i] == EntryKey(i, entries[i])
    decreases |entries|
  {
    var n := |entries| - 1;
    if i < n {
      KeysOfAt(entries[..n], i);
    }
  }

  /** The change for entry i: ChangeAll or ChangePdfOnly of its key and outcome. */
  lemma {:induction false} ChangesOfAt(keys: seq<string>, outs: seq<EntryOutcome>, pdfOnly: bool, i: nat)
    requires |keys| == |outs| && i < |keys|
    ensures ChangesOf(keys, outs, pdfOnly)[i]
            == if pdfOnly then ChangePdfOnly(keys[i], outs[i]) else ChangeAll(keys[i], outs[i])
    decreases |keys|
  {
    var n := |keys| - 1;
    if i < n {
      ChangesOfAt(keys[..n], outs[..n], pdfOnly, i);
    }
  }

  /** The `pdf_only` changes remove exactly the entries without a PDF, and `all` keeps every entry. */
  lemma ChangeActions(entries: seq<Entry>, outs: seq<EntryOutcome>, i: nat)
    requires |outs| == |entries| && i < |entries|
    ensures ChangesOf(KeysOf(entries), outs, true)[i].action == "remove" <==> !outs[i].found
    ensures ChangesOf(KeysOf(entries), outs, false)[i].action == "keep"
    ensures ChangesOf(KeysOf(entries), outs, true)[i].key == ChangesOf(KeysOf(entries), outs, false)[i].key
            == EntryKey(i, entries[i])
  {
    ChangesOfAt(KeysOf(entries), outs, true, i);
    ChangesOfAt(KeysOf(entries), outs, false, i);
    KeysOfAt(entries, i);
  }

  /** Appending one entry's key and outcome appends its change. */
  lemma ChangesSnoc(keys: seq<string>, outs: seq<EntryOutcome>, k: string, o: EntryOutcome, pdfOnly: bool)
    requires |keys| == |outs|
    ensures ChangesOf(keys + [k], outs + [o], pdfOnly)
            == ChangesOf(keys, outs, pdfOnly) + [if pdfOnly then ChangePdfOnly(k, o) else ChangeAll(k, o)]
  {
    assert (keys + [k])[..|keys|] == keys;
    assert (outs + [o])[..|outs|] == outs;
  }

  /** What run has gathered after some entries: the two splits, the outcomes, the changes, the counters and the browser. */
  datatype Gathering = Gathered(found: seq<Entry>, missing: seq<Entry>, outcomes: seq<EntryOutcome>,
                                changesAll: seq<Change>, changesPdfOnly: seq<Change>, tally: Tally, browser: Browser)

  /** The gathered state accounts for the first `done` entries. */
  ghost predicate Accounts(g: Gathering, entries: seq<Entry>, done: nat, assistSetting: bool, downloadEnabled: bool,
                           browserStarts: bool)
  {
    Listed(g, entries, done) && Counted(g, done, assistSetting, downloadEnabled, browserStarts)
  }

  /** The splits, outcomes and changes of the first `done` entries. */
  ghost predicate Listed(g: Gathering, entries: seq<Entry>, done: nat)
  {
    done <= |entries| && |g.outcomes| == done
    && g.found == Select(entries[..done], g.outcomes, true) && g.missing == Select(entries[..done], g.outcomes, false)
    && g.changesAll == ChangesOf(KeysOf(entries[..done]), g.outcomes, false)
    && g.changesPdfOnly == ChangesOf(KeysOf(entries[..done]), g.outcomes, true)
    && (forall k :: 0 <= k < done ==> (g.outcomes[k].found <==> g.outcomes[k].missingReason.None?))
  }

  /** The counters and the browser after `done` entries. */
  ghost predicate Counted(g: Gathering, done: nat, assistSetting: bool, downloadEnabled: bool, browserStarts: bool)
  {
    g.tally.cacheHits + g.tally.localHits + g.tally.downloaded == |g.found|
    && g.tally.assistResolved <= g.tally.assistAttempted <= done
    && (!assistSetting || !downloadEnabled ==> g.tally.assistAttempted == 0)
    && (!assistSetting ==> !g.browser.enabled)
    && (!browserStarts ==> !g.browser.open && !g.tally.assistAvailable)
    && (!browserStarts ==> g.tally.assistAttempted <= 1 && (g.tally.assistAttempted == 1 ==> !g.browser.enabled))
  }

  /** Records one more entry with its key and outcome, and the new counters and browser. */
  function Append(g: Gathering, e: Entry, key: string, out: EntryOutcome, t: Tally, b: Browser): (g': Gathering)
    ensures |g'.found| == |g.found| + (if out.found then 1 else 0)
    ensures g'.outcomes == g.outcomes + [out]
  {
    Gathered(g.found + (if out.found then [e] else []),
             g.missing + (if out.found then [] else [e]),
             g.outcomes + [out],
             g.changesAll + [ChangeAll(key, out)],
             g.changesPdfOnly + [ChangePdfOnly(key, out)],
             t, b)
  }

  /** Appending entry i with its own key keeps the lists in step with the input. */
  lemma AppendListed(g: Gathering, entries: seq<Entry>, i: nat, out: EntryOutcome, t: Tally, b: Browser)
    requires Listed(g, entries, i) && i < |entries|
    requires out.found <==> out.missingReason.None?
    ensures Listed(Append(g, entries[i], EntryKey(i, entries[i]), out, t, b), entries, i + 1)
  {
    SelectExtend(entries, i, g.outcomes, out, true);
    SelectExtend(entries, i, g.outcomes, out, false);
    ChangesExtend(entries, i, g.outcomes, out, false);
    ChangesExtend(entries, i, g.outcomes, out, true);
  }

  /** Run's loop body: resolve entry `i` and record it. */
  method Gather(index: PdfIndex, entries: seq<Entry>, i: nat, s: Settings, w: World, assistSetting: bool,
                browserStarts: bool, g: Gathering)
    returns (g': Gathering)
    requires index.Valid() && i < |entries|
    requires Accounts(g, entries, i, assistSetting, s.downloadEnabled, browserStarts)
    modifies index
    ensures index.Valid()
    ensures Accounts(g', entries, i + 1, assistSetting, s.downloadEnabled, browserStarts)
  {
    var key, out, b, t := ResolveEntry(index, i, entries[i], s, w, g.browser, browserStarts, g.tally);
    AppendListed(g, entries, i, out, t, b);
    g' := Append(g, entries[i], key, out, t, b);
  }

  /** Once every entry is gathered, the splits partition the input. */
  lemma GatheredAll(g: Gathering, entries: seq<Entry>, assistSetting: bool, downloadEnabled: bool, browserStarts: bool)
    requires Accounts(g, entries, |entries|, assistSetting, downloadEnabled, browserStarts)
    ensures g.found == Select(entries, g.outcomes, true) && g.missing == Select(entries, g.outcomes, false)
    ensures g.changesAll == ChangesOf(KeysOf(entries), g.outcomes, false)
    ensures g.changesPdfOnly == ChangesOf(KeysOf(entries), g.outcomes, true)
    ensures multiset(g.found) + multiset(g.missing) == multiset(entries)
    ensures |g.found| + |g.missing| == |entries|
  {
    assert entries[..|entries|] == entries;
    SelectPartition(entries, g.outcomes);
    SelectCount(entries, g.outcomes);
  }

  /**
   * PdfFetchStepHandler.run: resolve every entry in turn against the index,
   * then pass all entries or only the found ones. `worlds[i]` is what the
   * outside world answers for entry i, and `browserStarts` whether a browser
   * session can be opened.
   */
  method Run(index: PdfIndex, entries: seq<Entry>, config: RunConfig, worlds: seq<World>, browserStarts: bool)
    returns (r: RunResult)
    requires index.Valid() && |worlds| == |entries|
    modifies index
    ensures index.Valid()
    ensures r.passMode == NormalizePassMode(config.passMode)
    ensures |r.outcomes| == |r.changesAll| == |r.changesPdfOnly| == |entries|
    ensures r.found == Select(entries, r.outcomes, true) && r.missing == Select(entries, r.outcomes, false)
    ensures multiset(r.found) + multiset(r.missing) == multiset(entries)
    ensures r.passed == (if r.passMode == "all" then entries else r.found)
    ensures r.changes == (if r.passMode == "all" then r.changesAll else r.changesPdfOnly)
    ensures r.removedCount == |entries| - |r.passed| && r.removedCount >= 0
    ensures r.passMode == "pdf_only" ==> r.removedCount == |r.missing|
    ensures r.changesAll == ChangesOf(KeysOf(entries), r.outcomes, false)
    ensures r.changesPdfOnly == ChangesOf(KeysOf(entries), r.outcomes, true)
    ensures forall i :: 0 <= i < |entries| ==> (r.outcomes[i].found <==> r.outcomes[i].missingReason.None?)
    ensures r.tally.cacheHits + r.tally.localHits + r.tally.downloaded == |r.found|
    ensures r.tally.assistResolved <= r.tally.assistAttempted <= |entries|
    ensures !AssistEnabledSetting(config) || !SettingsOf(config).downloadEnabled ==> r.tally.assistAttempted == 0
    ensures r.tally.assistAvailable ==> browserStarts
    ensures !browserStarts ==> r.tally.assistAttempted <= 1
    ensures r.tally.assistAttempted > 0 ==> r.reportedEnabled
  {
    var s := SettingsOf(config);
    var assist := AssistEnabledSetting(config);
    var g := Gathered([], [], [], [], [], Tally(0, 0, 0, 0, 0, 0, false), Browser(assist, false));
    for i := 0 to |entries|
      invariant index.Valid()
      invariant Accounts(g, entries, i, assist, s.downloadEnabled, browserStarts)
    {
      g := Gather(index, entries, i, s, worlds[i], assist, browserStarts, g);
    }
    GatheredAll(g, entries, assist, s.downloadEnabled, browserStarts);
    var mode := NormalizePassMode(config.passMode);
    var passed := if mode == "all" then entries else g.found;
    r := RunResult(mode, passed, g.found, g.missing, g.outcomes, if mode == "all" then g.changesAll else g.changesPdfOnly,
                   g.changesAll, g.changesPdfOnly, |entries| - |passed|, g.tally, ReportedAssistEnabled(config));
  }
}
