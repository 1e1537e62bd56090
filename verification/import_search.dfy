/**
 * The local boolean search over an import's .bib files
 * (run_import_query_search and entries_to_bibtex in
 * app/backend/routers/imports.py): the request checks, then one pass over
 * the entries of the selected files that counts them, skips those without
 * an abstract when asked to, and keeps the matches up to a limit.
 *
 * The parsed .bib files are a parameter (file name to entries, a name
 * missing when the file does not exist), as are the external-syntax
 * normaliser, the HTML-entity decoder used by clean_bib_text, and the
 * BibTeX writer.
 */
module ImportSearch {
  import opened Wrappers
  import opened Text
  import opened Bib
  import opened Imports
  import QuerySearch
  import Perm

  datatype SearchRequest = SearchRequest(query: string, selectedFiles: Option<seq<string>>, maxResults: Option<int>,
                                         excludeWithoutAbstract: bool, normalizeExternalSyntax: bool)

  datatype SearchStats = SearchStats(selectedFileCount: nat, totalEntries: nat, entriesWithAbstract: nat,
                                     excludedWithoutAbstract: nat, matchedEntries: nat, returnedEntries: nat)

  /** What the checks hand to the scan: the files to read, the query text and its syntax tree. */
  datatype Plan = Plan(selected: seq<string>, normalizedQuery: string, ast: QuerySearch.Node)

  datatype SearchResult = SearchResult(normalizedQuery: string, stats: SearchStats, entries: seq<Entry>, bibtex: string)

  /** The `{f.filename: f}` dictionary: the last record of each name wins. */
  function Available(files: seq<ImportFile>): (r: map<string, ImportFile>)
    ensures forall name :: name in r <==> exists k :: 0 <= k < |files| && files[k].filename == name
  {
    if |files| == 0 then map[]
    else
      var n := |files| - 1;
      assert forall k :: 0 <= k < n ==> files[..n][k] == files[k];
      Available(files[..n])[files[n].filename := files[n]]
  }

  /** The dictionary's keys, in the order their names first occur. */
  function AvailableNames(files: seq<ImportFile>): (r: seq<string>)
    ensures forall name :: name in r <==> name in Available(files)
  {
    if |files| == 0 then []
    else
      var n := |files| - 1;
      var init := AvailableNames(files[..n]);
      if files[n].filename in init then init else init + [files[n].filename]
  }

  /** The selected names that the import does not have, in request order. */
  function Missing(selected: seq<string>, available: map<string, ImportFile>): (r: seq<string>)
    ensures r == [] <==> forall k :: 0 <= k < |selected| ==> selected[k] in available
  {
    if |selected| == 0 then []
    else
      var n := |selected| - 1;
      assert forall k :: 0 <= k < n ==> selected[..n][k] == selected[k];
      Missing(selected[..n], available) + if selected[n] in available then [] else [selected[n]]
  }

  /** `request.selected_files or list(available_files.keys())`. */
  function Selected(files: seq<ImportFile>, req: SearchRequest): seq<string>
  {
    if req.selectedFiles.None? || req.selectedFiles.value == [] then AvailableNames(files) else req.selectedFiles.value
  }

  /**
   * The checks before the scan, in order: something selected (400), every
   * selected name known (404, listing the unknown ones), a non-blank query
   * (400), a non-empty query after normalisation (400), and a query that
   * parses (400 with the parser's message).
   */
  function Prepare(files: seq<ImportFile>, req: SearchRequest, normalize: string -> string): (r: Result<Plan, HttpError>)
    ensures r.Ok? ==> r.value.selected == Selected(files, req) && r.value.selected != []
    ensures r.Ok? ==> forall k :: 0 <= k < |r.value.selected| ==> r.value.selected[k] in Available(files)
    ensures r.Ok? ==> Strip(req.query) != "" && r.value.normalizedQuery != ""
    ensures r.Ok? ==> r.value.normalizedQuery == if req.normalizeExternalSyntax then normalize(Strip(req.query)) else Strip(req.query)
    ensures r.Ok? ==> QuerySearch.ParseQuery(r.value.normalizedQuery) == Ok(r.value.ast)
    ensures Selected(files, req) == [] ==> r == Err(HttpError(400, "No files selected."))
    ensures r.Err? ==> r.error.status == 400 || r.error.status == 404
  {
    var selected := Selected(files, req);
    if selected == [] then Err(HttpError(400, "No files selected."))
    else
      var missing := Missing(selected, Available(files));
      if missing != [] then Err(HttpError(404, "Selected files not found in import: " + Join(missing, ", ")))
      else
        var raw := Strip(req.query);
        if raw == "" then Err(HttpError(400, "Query is required."))
        else
          var normalized := if req.normalizeExternalSyntax then normalize(raw) else raw;
          if normalized == "" then Err(HttpError(400, "Normalized query is empty."))
          else match QuerySearch.ParseQuery(normalized)
            case Err(msg) => Err(HttpError(400, "Query parse error: " + msg))
            case Ok(ast) => Ok(Plan(selected, normalized, ast))
  }

  /** Without an explicit selection every file is searched, so no selected name can be unknown. */
  lemma DefaultSelectionKnown(files: seq<ImportFile>, req: SearchRequest, normalize: string -> string)
    requires req.selectedFiles.None? || req.selectedFiles.value == []
    ensures Prepare(files, req, normalize).Err? ==> Prepare(files, req, normalize).error.status == 400
  {
    var selected := Selected(files, req);
    assert forall k :: 0 <= k < |selected| ==> selected[k] in AvailableNames(files);
  }

  /** max_results when it is a positive number, else no limit. */
  function Limit(maxResults: Option<int>): (r: Option<nat>)
    ensures r.Some? <==> maxResults.Some? && maxResults.value > 0
    ensures r.Some? ==> r.value == maxResults.value
  {
    if maxResults.Some? && maxResults.value > 0 then Some(maxResults.value as nat) else None
  }

  /** The running counts and the entries kept so far. */
  datatype Acc = Acc(total: nat, withAbstract: nat, excluded: nat, matched: nat, returned: seq<Entry>)

  /** How one entry fares: whether it has an abstract once cleaned, and whether the query matches it. */
  datatype Verdict = Verdict(hasAbstract: bool, matches: bool)

  function Judge(entry: Entry, ast: QuerySearch.Node, unescape: string -> string): Verdict
  {
    var title := QuerySearch.CleanBibText(Field(entry, "title"), unescape);
    var abstractText := QuerySearch.CleanBibText(Field(entry, "abstract"), unescape);
    Verdict(abstractText != "", QuerySearch.Eval(ast, title, abstractText, None))
  }

  /** The judge of one search, as the function value the scan takes. */
  function JudgeWith(ast: QuerySearch.Node, unescape: string -> string): Entry -> Verdict
  {
    e => Judge(e, ast, unescape)
  }

  /** A returned entry, marked with the file it came from and that file's database. */
  function Enriched(entry: Entry, filename: string, database: string): (r: Entry)
    ensures "_source_file" in r && "_database" in r && r["_source_file"] == filename && r["_database"] == database
    ensures forall k :: k in entry && k != "_source_file" && k != "_database" ==> k in r && r[k] == entry[k]
  {
    entry["_source_file" := filename]["_database" := database]
  }

  /** One entry of the scan. */
  function Step(acc: Acc, v: Verdict, entry: Entry, filename: string, database: string, exclude: bool, limit: Option<nat>): Acc
  {
    var acc := acc.(total := acc.total + 1);
    if !v.hasAbstract && exclude then acc.(excluded := acc.excluded + 1)
    else
      var acc := if v.hasAbstract then acc.(withAbstract := acc.withAbstract + 1) else acc;
      if !v.matches then acc
      else
        var acc := acc.(matched := acc.matched + 1);
        if limit.None? || |acc.returned| < limit.value then acc.(returned := acc.returned + [Enriched(entry, filename, database)])
        else acc
  }

  /** The scan of one file's entries, from the counts so far. */
  function ScanFile(acc: Acc, entries: seq<Entry>, filename: string, database: string, judge: Entry -> Verdict,
                    exclude: bool, limit: Option<nat>): Acc
  {
    if |entries| == 0 then acc
    else
      var n := |entries| - 1;
      var e := entries[n];
      Step(ScanFile(acc, entries[..n], filename, database, judge, exclude, limit), judge(e), e, filename, database, exclude, limit)
  }

  /** The scan of the selected files in order, each existing file's entries in file order. */
  function ScanFiles(selected: seq<string>, available: map<string, ImportFile>, bibs: map<string, seq<Entry>>,
                     judge: Entry -> Verdict, exclude: bool, limit: Option<nat>): Acc
    requires forall k :: 0 <= k < |selected| ==> selected[k] in available
  {
    if |selected| == 0 then Acc(0, 0, 0, 0, [])
    else
      var n := |selected| - 1;
      var acc := ScanFiles(selected[..n], available, bibs, judge, exclude, limit);
      var f := selected[n];
      if f in bibs then ScanFile(acc, bibs[f], f, available[f].database, judge, exclude, limit) else acc
  }

  /** One more selected file scans that file after the others, when it exists. */
  lemma ScanFilesSnoc(selected: seq<string>, i: nat, available: map<string, ImportFile>, bibs: map<string, seq<Entry>>,
                      judge: Entry -> Verdict, exclude: bool, limit: Option<nat>)
    requires i < |selected| && forall k :: 0 <= k < |selected| ==> selected[k] in available
    ensures var acc := ScanFiles(selected[..i], available, bibs, judge, exclude, limit);
      var f := selected[i];
      ScanFiles(selected[..i + 1], available, bibs, judge, exclude, limit) ==
        if f in bibs then ScanFile(acc, bibs[f], f, available[f].database, judge, exclude, limit) else acc
  {
    assert selected[..i + 1][..i] == selected[..i];
  }

  /**
   * The counts agree with each other: entries with an abstract and
   * excluded entries are among all entries (and make up all of them when
   * entries without an abstract are excluded, none being excluded otherwise),
   * matches are among all entries, and the kept matches are the first
   * matches up to the limit, each marked with a selected file.
   */
  predicate Consistent(acc: Acc, exclude: bool, limit: Option<nat>, selected: seq<string>)
  {
    && acc.withAbstract + acc.excluded <= acc.total
    && (exclude ==> acc.withAbstract + acc.excluded == acc.total)
    && (!exclude ==> acc.excluded == 0)
    && acc.matched <= acc.total - acc.excluded
    && (limit.None? ==> |acc.returned| == acc.matched)
    && (limit.Some? ==> |acc.returned| == if acc.matched < limit.value then acc.matched else limit.value)
    && (forall k :: 0 <= k < |acc.returned| ==> "_source_file" in acc.returned[k] && acc.returned[k]["_source_file"] in selected)
  }

  lemma StepConsistent(acc: Acc, v: Verdict, entry: Entry, filename: string, database: string, exclude: bool,
                       limit: Option<nat>, selected: seq<string>)
    requires Consistent(acc, exclude, limit, selected) && filename in selected
    ensures Consistent(Step(acc, v, entry, filename, database, exclude, limit), exclude, limit, selected)
    ensures Step(acc, v, entry, filename, database, exclude, limit).total == acc.total + 1
  {
    var r := Step(acc, v, entry, filename, database, exclude, limit);
    assert forall k :: 0 <= k < |acc.returned| ==> r.returned[k] == acc.returned[k];
  }

  lemma {:induction false} ScanFileConsistent(acc: Acc, entries: seq<Entry>, filename: string, database: string,
                                              judge: Entry -> Verdict, exclude: bool, limit: Option<nat>, selected: seq<string>)
    requires Consistent(acc, exclude, limit, selected) && filename in selected
    ensures Consistent(ScanFile(acc, entries, filename, database, judge, exclude, limit), exclude, limit, selected)
    ensures ScanFile(acc, entries, filename, database, judge, exclude, limit).total == acc.total + |entries|
    decreases |entries|
  {
    if |entries| > 0 {
      var n := |entries| - 1;
      ScanFileConsistent(acc, entries[..n], filename, database, judge, exclude, limit, selected);
      StepConsistent(ScanFile(acc, entries[..n], filename, database, judge, exclude, limit), judge(entries[n]),
                     entries[n], filename, database, exclude, limit, selected);
    }
  }

  /** The entries of the existing selected files, one count per listing of a file. */
  function EntryCount(selected: seq<string>, bibs: map<string, seq<Entry>>): nat
  {
    if |selected| == 0 then 0
    else
      var n := |selected| - 1;
      EntryCount(selected[..n], bibs) + if selected[n] in bibs then |bibs[selected[n]]| else 0
  }

  /** The whole scan keeps the counts consistent and counts every entry of every existing selected file. */
  lemma {:induction false} ScanFilesConsistent(selected: seq<string>, available: map<string, ImportFile>,
                                               bibs: map<string, seq<Entry>>, judge: Entry -> Verdict,
                                               exclude: bool, limit: Option<nat>, all: seq<string>)
    requires forall k :: 0 <= k < |selected| ==> selected[k] in available
    requires forall k :: 0 <= k < |selected| ==> selected[k] in all
    ensures Consistent(ScanFiles(selected, available, bibs, judge, exclude, limit), exclude, limit, all)
    ensures ScanFiles(selected, available, bibs, judge, exclude, limit).total == EntryCount(selected, bibs)
    decreases |selected|
  {
    if |selected| > 0 {
      var n := |selected| - 1;
      assert forall k :: 0 <= k < n ==> selected[..n][k] == selected[k];
      ScanFilesConsistent(selected[..n], available, bibs, judge, exclude, limit, all);
      var f := selected[n];
      if f in bibs {
        ScanFileConsistent(ScanFiles(selected[..n], available, bibs, judge, exclude, limit), bibs[f], f,
                           available[f].database, judge, exclude, limit, all);
      }
    }
  }

  /** entries_to_bibtex: "" for no entries, else the writer's text for the entries without their internal fields. */
  function EntriesToBibtex(entries: seq<Entry>, write: seq<Entry> -> string): (r: string)
    ensures entries == [] ==> r == ""
    ensures entries != [] ==> r == write(Perm.Map(PublicFields, entries))
  {
    if entries == [] then "" else write(Perm.Map(PublicFields, entries))
  }

  function StatsOf(plan: Plan, acc: Acc): SearchStats
  {
    SearchStats(|plan.selected|, acc.total, acc.withAbstract, acc.excluded, acc.matched, |acc.returned|)
  }

  /** One file's entries, scanned in place on the running counts. */
  method SearchFile(acc0: Acc, entries: seq<Entry>, filename: string, database: string, judge: Entry -> Verdict,
                    exclude: bool, limit: Option<nat>) returns (acc: Acc)
    ensures acc == ScanFile(acc0, entries, filename, database, judge, exclude, limit)
  {
    acc := acc0;
    for j := 0 to |entries|
      invariant acc == ScanFile(acc0, entries[..j], filename, database, judge, exclude, limit)
    {
      assert entries[..j + 1][..j] == entries[..j];
      var entry := entries[j];
      var v := judge(entry);
      acc := acc.(total := acc.total + 1);
      if v.hasAbstract {
        acc := acc.(withAbstract := acc.withAbstract + 1);
      } else if exclude {
        acc := acc.(excluded := acc.excluded + 1);
        continue;
      }
      if v.matches {
        acc := acc.(matched := acc.matched + 1);
        if limit.None? || |acc.returned| < limit.value {
          acc := acc.(returned := acc.returned + [Enriched(entry, filename, database)]);
        }
      }
    }
    assert entries[..|entries|] == entries;
  }

  /**
   * run_import_query_search: the checks of Prepare, then the scan of the
   * selected files that exist; the stats, the kept entries and their BibTeX.
   */
  method RunImportQuerySearch(files: seq<ImportFile>, req: SearchRequest, bibs: map<string, seq<Entry>>,
                              normalize: string -> string, unescape: string -> string, write: seq<Entry> -> string)
    returns (r: Result<SearchResult, HttpError>)
    ensures Prepare(files, req, normalize).Err? ==> r == Err(Prepare(files, req, normalize).error)
    ensures Prepare(files, req, normalize).Ok? ==>
      var plan := Prepare(files, req, normalize).value;
      var acc := ScanFiles(plan.selected, Available(files), bibs, JudgeWith(plan.ast, unescape), req.excludeWithoutAbstract,
                           Limit(req.maxResults));
      r == Ok(SearchResult(plan.normalizedQuery, StatsOf(plan, acc), acc.returned, EntriesToBibtex(acc.returned, write)))
  {
    var prepared := Prepare(files, req, normalize);
    if prepared.Err? {
      return Err(prepared.error);
    }
    var plan := prepared.value;
    var available := Available(files);
    var limit := Limit(req.maxResults);
    var judge := JudgeWith(plan.ast, unescape);
    var acc := Acc(0, 0, 0, 0, []);
    for i := 0 to |plan.selected|
      invariant acc == ScanFiles(plan.selected[..i], available, bibs, judge, req.excludeWithoutAbstract, limit)
    {
      ScanFilesSnoc(plan.selected, i, available, bibs, judge, req.excludeWithoutAbstract, limit);
      var filename := plan.selected[i];
      if filename !in bibs {
        continue;
      }
      acc := SearchFile(acc, bibs[filename], filename, available[filename].database, judge, req.excludeWithoutAbstract, limit);
    }
    assert plan.selected[..|plan.selected|] == plan.selected;
    return Ok(SearchResult(plan.normalizedQuery, StatsOf(plan, acc), acc.returned, EntriesToBibtex(acc.returned, write)));
  }

  /**
   * What a successful search reports: every entry of the selected existing
   * files counted, the counts consistent, at most the limit returned, and
   * each returned entry tagged with a selected file.
   */
  lemma SearchFacts(files: seq<ImportFile>, req: SearchRequest, bibs: map<string, seq<Entry>>, normalize: string -> string,
                    unescape: string -> string)
    requires Prepare(files, req, normalize).Ok?
    ensures var plan := Prepare(files, req, normalize).value;
      var acc := ScanFiles(plan.selected, Available(files), bibs, JudgeWith(plan.ast, unescape), req.excludeWithoutAbstract,
                           Limit(req.maxResults));
      && acc.total == EntryCount(plan.selected, bibs)
      && Consistent(acc, req.excludeWithoutAbstract, Limit(req.maxResults), plan.selected)
  {
    var plan := Prepare(files, req, normalize).value;
    ScanFilesConsistent(plan.selected, Available(files), bibs, JudgeWith(plan.ast, unescape), req.excludeWithoutAbstract,
                        Limit(req.maxResults), plan.selected);
  }
}
