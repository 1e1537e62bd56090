/**
 * The arXiv fetch script: the string fields of one Atom entry, its BibTeX
 * rendering, the total-results count, the query source and the page loop.
 * XML parsing, HTTP and the output file are outside the model: an entry
 * arrives as the texts and attributes the script reads from it, and a
 * page request is a function from its start index to the response.
 */
module ArxivFetch {
  import opened Wrappers
  import opened Text
  import opened Perm
  import BibWrite
  import SpringerBibtex

  // ------------------------------------------------------------------
  // the arXiv id
  // ------------------------------------------------------------------

  /** id_text.rsplit("/", 1)[-1]: the text after the last slash, or all of it. */
  function LastSegment(s: string): (r: string)
    ensures '/' !in r
    ensures |r| <= |s| && s[|s| - |r|..] == r
    ensures |r| < |s| ==> s[|s| - |r| - 1] == '/'
  {
    if |s| == 0 || s[|s| - 1] == '/' then ""
    else
      var r := LastSegment(s[..|s| - 1]);
      assert s[..|s| - 1][|s| - 1 - |r|..] == r;
      r + [s[|s| - 1]]
  }

  /** Number of trailing ASCII digits. */
  function TrailingDigits(s: string): (n: nat)
    ensures n <= |s|
    ensures forall i :: |s| - n <= i < |s| ==> IsDigit(s[i])
    ensures n < |s| ==> !IsDigit(s[|s| - n - 1])
  {
    if |s| == 0 || !IsDigit(s[|s| - 1]) then 0 else TrailingDigits(s[..|s| - 1]) + 1
  }

  /** The match of v\d+ at the very end removed. */
  function DropVersion(s: string): (r: string)
  {
    var d := TrailingDigits(s);
    if 0 < d < |s| && s[|s| - d - 1] == 'v' then s[..|s| - d - 1] else s
  }

  /**
   * re.sub(r"v\d+$", "", s). The pattern's `$` also matches just before a
   * final newline, which then stays.
   */
  function StripVersion(s: string): string
  {
    if |s| > 0 && s[|s| - 1] == '\n' then DropVersion(s[..|s| - 1]) + "\n" else DropVersion(s)
  }

  /** The id parse_entry derives from the text of atom:id. */
  function ArxivId(idText: string): string
  {
    StripVersion(LastSegment(idText))
  }

  lemma {:induction false} TrailingDigitsOf(prefix: string, digits: string)
    requires |prefix| > 0 && !IsDigit(prefix[|prefix| - 1])
    requires forall i :: 0 <= i < |digits| ==> IsDigit(digits[i])
    ensures TrailingDigits(prefix + digits) == |digits|
    decreases |digits|
  {
    if |digits| > 0 {
      var n := |digits| - 1;
      assert (prefix + digits)[..|prefix + digits| - 1] == prefix + digits[..n];
      TrailingDigitsOf(prefix, digits[..n]);
    } else {
      assert prefix + digits == prefix;
    }
  }

  /** A version suffix v<n> is removed, whatever comes before it. */
  lemma VersionRemoved(base: string, n: nat)
    ensures StripVersion(base + "v" + NatToString(n)) == base
  {
    var digits := NatToString(n);
    var s := base + "v" + digits;
    TrailingDigitsOf(base + "v", digits);
    assert s[|s| - 1] == digits[|digits| - 1];
    assert s[..|s| - |digits| - 1] == base;
  }

  /** An id that does not end in a digit or a newline has no version to remove. */
  lemma NoVersionKept(s: string)
    requires |s| > 0 ==> !IsDigit(s[|s| - 1]) && s[|s| - 1] != '\n'
    ensures StripVersion(s) == s
  {
  }

  lemma {:induction false} LastSegmentAfterSlash(prefix: string, seg: string)
    requires '/' !in seg
    ensures LastSegment(prefix + "/" + seg) == seg
    decreases |seg|
  {
    var s := prefix + "/" + seg;
    if |seg| > 0 {
      var n := |seg| - 1;
      assert s[..|s| - 1] == prefix + "/" + seg[..n];
      LastSegmentAfterSlash(prefix, seg[..n]);
      assert seg == seg[..n] + [seg[n]];
    } else {
      assert s[|s| - 1] == '/';
    }
  }

  /** The abs URL of a versioned paper yields the bare id. */
  lemma IdOfAbsUrl(prefix: string, base: string, n: nat)
    requires '/' !in base
    ensures ArxivId(prefix + "/" + base + "v" + NatToString(n)) == base
  {
    var seg := base + "v" + NatToString(n);
    assert '/' !in seg by {
      forall i | 0 <= i < |seg| ensures seg[i] != '/' {
        if i > |base| { assert IsDigit(NatToString(n)[i - |base| - 1]); }
      }
    }
    assert prefix + "/" + base + "v" + NatToString(n) == prefix + "/" + seg;
    LastSegmentAfterSlash(prefix, seg);
    VersionRemoved(base, n);
  }

  // ------------------------------------------------------------------
  // dates
  // ------------------------------------------------------------------

  /** published[:4] when published has at least four characters. */
  function Year(published: string): (r: string)
    ensures |r| == 4 || r == ""
  {
    if |published| >= 4 then published[..4] else ""
  }

  /** published[5:7] when published has at least seven characters. */
  function Month(published: string): (r: string)
    ensures |r| == 2 || r == ""
  {
    if |published| >= 7 then published[5..7] else ""
  }

  /** An ISO timestamp YYYY-MM-... gives its year and month. */
  lemma PublishedParts(year: string, month: string, rest: string)
    requires |year| == 4 && |month| == 2
    ensures Year(year + "-" + month + rest) == year
    ensures Month(year + "-" + month + rest) == month
  {
    var s := year + "-" + month + rest;
    assert s[..4] == year;
    assert s[5..7] == month;
  }

  /** A timestamp too short for a year or a month yields none. */
  lemma ShortPublished(published: string)
    requires |published| < 7
    ensures Month(published) == ""
    ensures |published| < 4 ==> Year(published) == ""
  {
  }

  // ------------------------------------------------------------------
  // authors, categories and links
  // ------------------------------------------------------------------

  /** The stripped texts of atom:name and arxiv:affiliation of one author. */
  datatype RawAuthor = RawAuthor(name: string, affiliation: string)

  predicate NonBlank(s: string) { s != "" }

  function StrippedName(a: RawAuthor): string { Strip(a.name) }

  /** The affiliation text of one author: "name: affiliation", or the affiliation alone without a name. */
  function AffiliationOf(a: RawAuthor): (r: string)
    ensures r == "" <==> Strip(a.affiliation) == ""
  {
    var name := Strip(a.name);
    var affiliation := Strip(a.affiliation);
    if affiliation == "" then ""
    else if name != "" then name + ": " + affiliation
    else affiliation
  }

  /** The author names kept: the non-empty stripped names, in order. */
  function AuthorList(authors: seq<RawAuthor>): seq<string>
  {
    Filter(NonBlank, Map(StrippedName, authors))
  }

  function AffiliationList(authors: seq<RawAuthor>): seq<string>
  {
    Filter(NonBlank, Map(AffiliationOf, authors))
  }

  /** A name is listed exactly when it is some author's non-empty stripped name. */
  lemma AuthorListMembers(authors: seq<RawAuthor>, name: string)
    ensures name in AuthorList(authors) <==> name != "" && exists i :: 0 <= i < |authors| && Strip(authors[i].name) == name
  {
    FilterMembers(NonBlank, Map(StrippedName, authors), name);
    if name in Map(StrippedName, authors) {
      var i :| 0 <= i < |authors| && Map(StrippedName, authors)[i] == name;
      assert Strip(authors[i].name) == name;
    }
    if exists i :: 0 <= i < |authors| && Strip(authors[i].name) == name {
      var i :| 0 <= i < |authors| && Strip(authors[i].name) == name;
      assert Map(StrippedName, authors)[i] == name;
    }
  }

  /** An author with an affiliation contributes one affiliation text, in order; one without contributes none. */
  lemma AffiliationListSnoc(authors: seq<RawAuthor>, i: nat)
    requires i < |authors|
    ensures AffiliationList(authors[..i + 1]) ==
      AffiliationList(authors[..i]) + (if Strip(authors[i].affiliation) != "" then [AffiliationOf(authors[i])] else [])
  {
    var m := Map(AffiliationOf, authors);
    assert Map(AffiliationOf, authors[..i + 1]) == m[..i + 1];
    assert Map(AffiliationOf, authors[..i]) == m[..i];
    FilterSnoc(NonBlank, m, i);
  }

  /** The author loop of parse_entry. */
  method CollectAuthors(authors: seq<RawAuthor>) returns (names: seq<string>, affiliations: seq<string>)
    ensures names == AuthorList(authors)
    ensures affiliations == AffiliationList(authors)
  {
    names := [];
    affiliations := [];
    for i := 0 to |authors|
      invariant names == AuthorList(authors[..i])
      invariant affiliations == AffiliationList(authors[..i])
    {
      var name := Strip(authors[i].name);
      assert Map(StrippedName, authors[..i + 1]) == Map(StrippedName, authors)[..i + 1];
      assert Map(StrippedName, authors[..i]) == Map(StrippedName, authors)[..i];
      FilterSnoc(NonBlank, Map(StrippedName, authors), i);
      AffiliationListSnoc(authors, i);
      if name != "" {
        names := names + [name];
      }
      var affiliation := Strip(authors[i].affiliation);
      if affiliation != "" {
        affiliations := affiliations + [if name != "" then name + ": " + affiliation else affiliation];
      }
    }
    PrefixAll(authors);
  }

  /** The term attributes of the atom:category elements that have one. */
  method CollectCategories(terms: seq<string>) returns (categories: seq<string>)
    ensures categories == Filter(NonBlank, terms)
  {
    categories := [];
    for i := 0 to |terms|
      invariant categories == Filter(NonBlank, terms[..i])
    {
      FilterSnoc(NonBlank, terms, i);
      if terms[i] != "" {
        categories := categories + [terms[i]];
      }
    }
    PrefixAll(terms);
  }

  /** The rel, href and type attributes of one atom:link. */
  datatype Link = Link(rel: string, href: string, linkType: string)

  /** The alternate link (the abstract page) or, with pdf set, the related PDF link. */
  predicate Wanted(l: Link, pdf: bool)
  {
    if pdf then l.rel == "related" && l.linkType == "application/pdf" else l.rel == "alternate"
  }

  /**
   * The href the link loop keeps: a wanted link sets it only while it is
   * still empty, so it is the first non-empty href of a wanted link.
   */
  function FirstHref(links: seq<Link>, pdf: bool): (r: string)
    ensures r == "" <==> forall i :: 0 <= i < |links| && Wanted(links[i], pdf) ==> links[i].href == ""
    ensures r != "" ==> exists i :: 0 <= i < |links| && FirstWanted(links, pdf, i) && links[i].href == r
  {
    if |links| == 0 then ""
    else
      var n := |links| - 1;
      var r := FirstHref(links[..n], pdf);
      if r != "" then
        var i :| 0 <= i < n && FirstWanted(links[..n], pdf, i) && links[..n][i].href == r;
        assert FirstWanted(links, pdf, i);
        r
      else if Wanted(links[n], pdf) then
        assert FirstWanted(links, pdf, n) by {
          assert forall j :: 0 <= j < n ==> links[j] == links[..n][j];
        }
        links[n].href
      else
        assert forall j :: 0 <= j < n ==> links[j] == links[..n][j];
        ""
  }

  /** links[i] is wanted and every wanted link before it has an empty href. */
  predicate FirstWanted(links: seq<Link>, pdf: bool, i: nat)
    requires i < |links|
  {
    Wanted(links[i], pdf) && forall j :: 0 <= j < i && Wanted(links[j], pdf) ==> links[j].href == ""
  }

  /** The link loop of parse_entry: the abstract-page URL and the PDF URL. */
  method PickLinks(links: seq<Link>) returns (url: string, pdfUrl: string)
    ensures url == FirstHref(links, false)
    ensures pdfUrl == FirstHref(links, true)
  {
    url := "";
    pdfUrl := "";
    for i := 0 to |links|
      invariant url == FirstHref(links[..i], false)
      invariant pdfUrl == FirstHref(links[..i], true)
    {
      assert links[..i + 1][..i] == links[..i];
      var link := links[i];
      if link.rel == "alternate" && url == "" {
        url := link.href;
      }
      if link.rel == "related" && link.linkType == "application/pdf" && pdfUrl == "" {
        pdfUrl := link.href;
      }
    }
    PrefixAll(links);
  }

  // ------------------------------------------------------------------
  // parse_entry
  // ------------------------------------------------------------------

  /**
   * What parse_entry reads from one atom:entry: element texts ("" when
   * absent), the authors, the arxiv:primary_category term (None when the
   * element is absent), the category terms and the links.
   */
  datatype RawEntry = RawEntry(
    idText: string,
    title: string,
    summary: string,
    published: string,
    updated: string,
    authors: seq<RawAuthor>,
    primaryCategory: Option<string>,
    doi: string,
    journalRef: string,
    comment: string,
    categoryTerms: seq<string>,
    links: seq<Link>)

  /** The record parse_entry returns. */
  datatype Data = Data(
    id: string,
    title: string,
    summary: string,
    author: string,
    affiliations: string,
    year: string,
    month: string,
    primaryClass: string,
    categories: string,
    doi: string,
    journalRef: string,
    comment: string,
    updated: string,
    published: string,
    url: string,
    pdf: string)

  function Parse(e: RawEntry): Data
  {
    Data(
      ArxivId(e.idText),
      SpringerBibtex.NormalizeWhitespace(e.title),
      SpringerBibtex.NormalizeWhitespace(e.summary),
      Join(AuthorList(e.authors), " and "),
      Join(AffiliationList(e.authors), "; "),
      Year(e.published),
      Month(e.published),
      e.primaryCategory.GetOr(""),
      Join(Filter(NonBlank, e.categoryTerms), " "),
      e.doi,
      e.journalRef,
      e.comment,
      e.updated,
      e.published,
      FirstHref(e.links, false),
      FirstHref(e.links, true))
  }

  /** parse_entry */
  method ParseEntry(e: RawEntry) returns (d: Data)
    ensures d == Parse(e)
  {
    var names, affiliations := CollectAuthors(e.authors);
    var categories := CollectCategories(e.categoryTerms);
    var url, pdfUrl := PickLinks(e.links);
    var primaryClass := "";
    if e.primaryCategory.Some? {
      primaryClass := e.primaryCategory.value;
    }
    d := Data(
      ArxivId(e.idText),
      SpringerBibtex.NormalizeWhitespace(e.title),
      SpringerBibtex.NormalizeWhitespace(e.summary),
      Join(names, " and "),
      Join(affiliations, "; "),
      Year(e.published),
      Month(e.published),
      primaryClass,
      Join(categories, " "),
      e.doi,
      e.journalRef,
      e.comment,
      e.updated,
      e.published,
      url,
      pdfUrl);
  }

  /** The parsed title and abstract are whitespace-collapsed. */
  lemma ParsedTextCollapsed(e: RawEntry)
    ensures Collapsed(Parse(e).title) && Collapsed(Parse(e).summary)
  {
  }

  // ------------------------------------------------------------------
  // entry_to_bibtex
  // ------------------------------------------------------------------

  /** The citation key: arXiv:<id>, or arXiv:unknown without an id. */
  function CiteKey(id: string): (r: string)
    ensures id != "" ==> r == "arXiv:" + id
    ensures id == "" ==> r == "arXiv:unknown"
  {
    if id != "" then "arXiv:" + id else "arXiv:unknown"
  }

  /** The fields before the note, in their order. */
  function BaseFields(d: Data): seq<BibWrite.Field>
  {
    [("title", d.title),
     ("author", d.author),
     ("abstract", d.summary),
     ("journal", if d.id != "" then "arXiv preprint arXiv:" + d.id else ""),
     ("year", d.year),
     ("month", d.month),
     ("eprint", d.id),
     ("archivePrefix", if d.id != "" then "arXiv" else ""),
     ("primaryClass", d.primaryClass),
     ("categories", d.categories),
     ("comment", d.comment),
     ("updated", d.updated),
     ("published", d.published),
     ("url", d.url),
     ("pdf", d.pdf),
     ("author_affiliations", d.affiliations),
     ("doi", d.doi)]
  }

  /** The journal reference note, appended only when there is one. */
  function Note(d: Data): seq<BibWrite.Field>
  {
    if d.journalRef != "" then [("note", "Journal reference: " + d.journalRef)] else []
  }

  function ArxivFields(d: Data): seq<BibWrite.Field>
  {
    BaseFields(d) + Note(d)
  }

  /** The BibTeX text of one entry. */
  function Bibtex(d: Data): string
  {
    BibWrite.Render("article", CiteKey(d.id), ArxivFields(d))
  }

  /** entry_to_bibtex */
  method EntryToBibtex(d: Data) returns (text: string)
    ensures text == Bibtex(d)
  {
    var key := if d.id != "" then "arXiv:" + d.id else "arXiv:unknown";
    var fields := BaseFields(d);
    if d.journalRef != "" {
      fields := fields + [("note", "Journal reference: " + d.journalRef)];
    }
    assert key == CiteKey(d.id) && fields == ArxivFields(d);
    text := BibWrite.RenderEntry("article", key, fields);
  }

  /** Without an id, the journal, eprint and archivePrefix fields are empty and so not written. */
  lemma NoIdFields(d: Data)
    requires d.id == ""
    ensures var fs := ArxivFields(d);
      fs[3] == ("journal", "") && fs[6] == ("eprint", "") && fs[7] == ("archivePrefix", "")
  {
  }

  /** With an id, they are written with the id. */
  lemma IdFields(d: Data)
    requires d.id != ""
    ensures var fs := BibWrite.NonEmpty(ArxivFields(d));
      && ("journal", "arXiv preprint arXiv:" + d.id) in fs
      && ("eprint", d.id) in fs
      && ("archivePrefix", "arXiv") in fs
  {
    var fs := ArxivFields(d);
    assert fs[3] == ("journal", "arXiv preprint arXiv:" + d.id);
    assert fs[6] == ("eprint", d.id);
    assert fs[7] == ("archivePrefix", "arXiv");
    BibWrite.NonEmptyMembers(fs, fs[3]);
    BibWrite.NonEmptyMembers(fs, fs[6]);
    BibWrite.NonEmptyMembers(fs, fs[7]);
  }

  /** The note is the last field written when there is a journal reference; otherwise no note is written. */
  lemma NoteLast(d: Data)
    ensures var ws := BibWrite.NonEmpty(ArxivFields(d));
      d.journalRef != "" ==> |ws| > 0 && ws[|ws| - 1] == ("note", "Journal reference: " + d.journalRef)
    ensures d.journalRef == "" ==> BibWrite.NonEmpty(ArxivFields(d)) == BibWrite.NonEmpty(BaseFields(d))
  {
    var fs := ArxivFields(d);
    assert fs[..|fs| - 1] == BaseFields(d) || d.journalRef == "";
    if d.journalRef == "" {
      assert fs == BaseFields(d);
    }
  }

  // ------------------------------------------------------------------
  // totals, query and pages
  // ------------------------------------------------------------------

  /** parse_total_results: int() of the opensearch:totalResults text; None where int() raises. */
  function ParseTotalResults(text: string): (r: Option<int>)
    ensures Strip(text) == "" ==> r == None
  {
    ParseInt(Strip(text))
  }

  /** A count written in decimal parses back, and a missing element gives None. */
  lemma TotalResultsOfNat(n: nat)
    ensures ParseTotalResults(NatToString(n)) == Some(n)
    ensures ParseTotalResults("") == None
  {
    var s := NatToString(n);
    assert forall i :: 0 <= i < |s| ==> s[i] !in Whitespace by {
      forall i | 0 <= i < |s| ensures s[i] !in Whitespace { assert IsDigit(s[i]); }
    }
    ParseIntOfNat(n);
  }

  /**
   * load_query: a non-empty --query wins; otherwise a non-empty
   * --query-file is read (its text is a parameter) and stripped; with
   * neither, the ValueError "Query is required".
   */
  function LoadQuery(query: Option<string>, queryFile: Option<string>, fileText: string): (r: Result<string, string>)
    ensures r.Err? <==> (query.None? || query.value == "") && (queryFile.None? || queryFile.value == "")
    ensures r.Err? ==> r.error == "Query is required"
    ensures query.Some? && query.value != "" ==> r == Ok(query.value)
    ensures r.Ok? && (query.None? || query.value == "") ==> r.value == Strip(fileText)
  {
    if query.Some? && query.value != "" then Ok(query.value)
    else if queryFile.Some? && queryFile.value != "" then Ok(Strip(fileText))
    else Err("Query is required")
  }

  /** One API response: the entries of the page and the totalResults text. */
  datatype Response = Response(entries: seq<RawEntry>, totalText: string)

  /** The loop goes on after a page: it had entries and did not reach the reported total. */
  predicate Continues(r: Response, start: int)
  {
    |r.entries| > 0 && !(ParseTotalResults(r.totalText).Some? && start + |r.entries| >= ParseTotalResults(r.totalText).value)
  }

  /** The start index of page p. */
  function PageStart(start: int, pageSize: int, p: nat): int
  {
    start + p * pageSize
  }

  /** The loop goes on after page p. */
  predicate PageContinues(fetch: int -> Response, start: int, pageSize: int, p: nat)
  {
    Continues(fetch(PageStart(start, pageSize, p)), PageStart(start, pageSize, p))
  }

  /** The text written for one entry: its BibTeX and a blank line. */
  function EntryText(e: RawEntry): string
  {
    Bibtex(Parse(e)) + "\n\n"
  }

  /** The text written for the entries of one page, one after the other. */
  function PageText(entries: seq<RawEntry>): string
  {
    Concat(Map(EntryText, entries))
  }

  /** The entries of the first n pages, in order. */
  function PagesEntries(fetch: int -> Response, start: int, pageSize: int, n: nat): seq<RawEntry>
  {
    if n == 0 then [] else PagesEntries(fetch, start, pageSize, n - 1) + fetch(PageStart(start, pageSize, n - 1)).entries
  }

  /** One more page adds its entries. */
  lemma PagesEntriesSnoc(fetch: int -> Response, start: int, pageSize: int, n: nat)
    ensures PagesEntries(fetch, start, pageSize, n + 1) ==
            PagesEntries(fetch, start, pageSize, n) + fetch(PageStart(start, pageSize, n)).entries
  {
  }

  /** One more entry adds its text. */
  lemma PageTextSnoc(entries: seq<RawEntry>, i: nat)
    requires i < |entries|
    ensures PageText(entries[..i + 1]) == PageText(entries[..i]) + EntryText(entries[i])
  {
    ConcatMapSnoc(EntryText, entries, i);
  }

  /** Writing two runs of entries one after the other writes their texts one after the other. */
  lemma PageTextConcat(a: seq<RawEntry>, b: seq<RawEntry>)
    ensures PageText(a + b) == PageText(a) + PageText(b)
  {
    MapConcat(EntryText, a, b);
    ConcatAppend(Map(EntryText, a), Map(EntryText, b));
  }

  /** Page n's text follows the text of the pages before it. */
  lemma PagesTextSnoc(fetch: int -> Response, start: int, pageSize: int, n: nat)
    ensures PageText(PagesEntries(fetch, start, pageSize, n + 1))
         == PageText(PagesEntries(fetch, start, pageSize, n)) + PageText(fetch(PageStart(start, pageSize, n)).entries)
  {
    PageTextConcat(PagesEntries(fetch, start, pageSize, n), fetch(PageStart(start, pageSize, n)).entries);
  }

  /** What main writes for one entry. */
  method WriteEntry(e: RawEntry) returns (text: string)
    ensures text == EntryText(e)
  {
    var data := ParseEntry(e);
    var bib := EntryToBibtex(data);
    text := bib + "\n\n";
  }

  /** The entry loop of main for one page. */
  method WritePage(entries: seq<RawEntry>) returns (text: string)
    ensures text == PageText(entries)
  {
    text := "";
    for i := 0 to |entries|
      invariant text == PageText(entries[..i])
    {
      var entryText := WriteEntry(entries[i]);
      PageTextSnoc(entries, i);
      text := text + entryText;
    }
    PrefixAll(entries);
  }

  /** One request of the page loop: the entries of page `page` and whether the loop goes on after it. */
  method RequestPage(start: int, pageSize: int, page: nat, fetch: int -> Response) returns (entries: seq<RawEntry>, goOn: bool)
    ensures entries == fetch(PageStart(start, pageSize, page)).entries
    ensures goOn <==> PageContinues(fetch, start, pageSize, page)
  {
    var pageStart := start + page * pageSize;
    var response := fetch(pageStart);
    entries := response.entries;
    var total := ParseTotalResults(response.totalText);
    goOn := !(|response.entries| == 0 || (total.Some? && pageStart + |response.entries| >= total.value));
  }

  /**
   * The requests of the page loop of main: pages are requested at
   * start + p * pageSize for p = 0, 1, ...; the loop stops after maxPages
   * pages, at the first empty page, or after the page that reaches the
   * reported total. It returns the entries to write, in order, and the
   * number of pages requested.
   */
  method FetchPages(start: int, pageSize: int, maxPages: int, fetch: int -> Response)
    returns (entries: seq<RawEntry>, pages: nat)
    ensures pages <= maxPages || pages == 0
    ensures forall p: nat :: p < pages - 1 ==> PageContinues(fetch, start, pageSize, p)
    ensures pages < maxPages ==> pages > 0 && !PageContinues(fetch, start, pageSize, pages - 1)
    ensures entries == PagesEntries(fetch, start, pageSize, pages)
  {
    entries := [];
    var page := 0;
    while page < maxPages
      invariant 0 <= page && (page <= maxPages || page == 0)
      invariant forall p: nat :: p < page ==> PageContinues(fetch, start, pageSize, p)
      invariant entries == PagesEntries(fetch, start, pageSize, page)
    {
      var pageEntries, goOn := RequestPage(start, pageSize, page, fetch);
      PagesEntriesSnoc(fetch, start, pageSize, page);
      entries := entries + pageEntries;
      if !goOn {
        pages := page + 1;
        assert pages - 1 == page;
        return;
      }
      page := page + 1;
    }
    pages := page;
  }

  /**
   * The loop of main: the text written is the BibTeX of every entry of the
   * pages requested, each followed by a blank line, page after page
   * (PagesTextSnoc), and total_written counts them.
   */
  method WriteAll(start: int, pageSize: int, maxPages: int, fetch: int -> Response)
    returns (text: string, pages: nat, written: nat)
    ensures pages <= maxPages || pages == 0
    ensures text == PageText(PagesEntries(fetch, start, pageSize, pages))
    ensures written == |PagesEntries(fetch, start, pageSize, pages)|
  {
    var entries;
    entries, pages := FetchPages(start, pageSize, maxPages, fetch);
    text := WritePage(entries);
    written := |entries|;
  }
}
