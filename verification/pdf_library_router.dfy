/**
 * The PDF library API (app/backend/routers/pdf_library.py): the listing of
 * the global PDF index with its status filter and free-text query, the
 * library statistics, the resolution of a record to a file on disk for
 * download or inline viewing, and record deletion. The index itself is
 * PdfLibrary.PdfIndex; files on disk are the set of paths that exist.
 */
module PdfLibraryRouter {
  import opened Wrappers
  import opened Text
  import opened PdfLibrary

  // ------------------------------------------------------------------
  // The record as the API returns it
  // ------------------------------------------------------------------

  datatype PdfView = PdfView(
    id: string,
    key: string,
    doi: Option<string>,
    title: string,
    status: string,
    pdfPath: Option<string>,
    managedFile: bool,
    source: Option<string>,
    sourceUrl: Option<string>,
    provider: Option<string>,
    contentType: Option<string>,
    sizeBytes: Option<int>,
    projectIds: seq<string>,
    stepIds: seq<string>,
    entryKeys: seq<string>,
    missingReason: Option<string>,
    failureCount: int,
    createdAt: string,
    updatedAt: string,
    lastCheckedAt: string,
    projectRefCount: nat)

  /** The status a record is listed under: an empty status counts as missing. */
  function ListedStatus(r: Record): (s: string)
    ensures s != ""
    ensures r.status != "" ==> s == r.status
  {
    if r.status == "" then "missing" else r.status
  }

  /** The number of distinct project ids. */
  function RefCount(ids: seq<string>): nat
  {
    |set x | x in ids|
  }

  /** Distinct project ids never outnumber the list, and equal it when the list has no repeats. */
  lemma {:induction false} RefCountBound(ids: seq<string>)
    ensures RefCount(ids) <= |ids|
    ensures Distinct(ids) ==> RefCount(ids) == |ids|
    ensures RefCount(ids) == 0 <==> ids == []
    decreases |ids|
  {
    if ids != [] {
      var init := ids[..|ids| - 1];
      var last := ids[|ids| - 1];
      assert ids == init + [last];
      assert (set x | x in ids) == (set x | x in init) + {last};
      RefCountBound(init);
      if Distinct(ids) {
        assert Distinct(init);
        forall i | 0 <= i < |init|
          ensures init[i] != last
        {
          assert ids[i] != ids[|ids| - 1];
        }
      }
      assert last in (set x | x in ids);
    }
  }

  /** to_pdf_record: the record's fields with defaults filled and the project reference count added. */
  function ToView(r: Record): (v: PdfView)
    ensures v.id == r.id && v.key == r.key && v.doi == r.doi && v.title == r.title
    ensures v.status == ListedStatus(r)
    ensures v.pdfPath == r.pdfPath && v.managedFile == r.managedFile
    ensures v.projectIds == r.projectIds && v.stepIds == r.stepIds && v.entryKeys == r.entryKeys
    ensures v.projectRefCount <= |r.projectIds|
    ensures References(r) ==> v.projectRefCount == |r.projectIds|
    ensures v.projectRefCount == 0 <==> r.projectIds == []
  {
    RefCountBound(r.projectIds);
    PdfView(r.id, r.key, r.doi, r.title, ListedStatus(r), r.pdfPath, r.managedFile, r.source,
            r.sourceUrl, r.provider, r.contentType, r.sizeBytes, r.projectIds, r.stepIds, r.entryKeys,
            r.missingReason, r.failureCount, r.createdAt, r.updatedAt, r.lastCheckedAt,
            RefCount(r.projectIds))
  }

  // ------------------------------------------------------------------
  // Listing
  // ------------------------------------------------------------------

  const StatusFilters: set<string> := {"all", "found", "missing"}

  function OrEmpty(o: Option<string>): string { o.GetOr("") }

  /** The searched text: DOI, title, path, source URL, key and source, space-joined and lower-cased. */
  function Haystack(r: Record): string
  {
    LowerStr(OrEmpty(r.doi) + " " + r.title + " " + OrEmpty(r.pdfPath) + " " +
             OrEmpty(r.sourceUrl) + " " + r.key + " " + OrEmpty(r.source))
  }

  /** A record passes the status filter and, for a non-empty query, contains it. */
  predicate Kept(r: Record, status: string, query: string)
  {
    (status == "all" || ListedStatus(r) == status) && (query == "" || Contains(Haystack(r), query))
  }

  /** The listing, in the order of the records given. */
  function Listing(records: seq<Record>, status: string, query: string): (vs: seq<PdfView>)
    ensures |vs| <= |records|
    ensures forall v :: v in vs ==> status == "all" || v.status == status
    ensures status == "all" && query == "" ==> |vs| == |records|
  {
    if records == [] then []
    else
      var init := records[..|records| - 1];
      var last := records[|records| - 1];
      assert records == init + [last];
      var prev := Listing(init, status, query);
      if Kept(last, status, query) then prev + [ToView(last)] else prev
  }

  /** The listing holds the view of every kept record, and nothing else. */
  lemma {:induction false} ListingMembers(records: seq<Record>, status: string, query: string)
    ensures forall r :: r in records && Kept(r, status, query) ==> ToView(r) in Listing(records, status, query)
    ensures forall v :: v in Listing(records, status, query) ==>
              exists r :: r in records && Kept(r, status, query) && v == ToView(r)
  {
    if records != [] {
      var init := records[..|records| - 1];
      var last := records[|records| - 1];
      assert records == init + [last];
      ListingMembers(init, status, query);
    }
  }

  /** A needle inside one part of a concatenation is inside the whole. */
  lemma ContainsInside(a: string, b: string, c: string, q: string)
    requires Contains(b, q)
    ensures Contains(a + b + c, q)
  {
    var i :| 0 <= i <= |b| && q <= b[i..];
    assert (a + b + c)[|a| + i..] == b[i..] + c;
  }

  /** A query found in the lower-cased title of a record finds that record. */
  lemma QueryFindsTitle(r: Record, q: string)
    requires Contains(LowerStr(r.title), q)
    ensures Contains(Haystack(r), q)
  {
    var a := OrEmpty(r.doi) + " ";
    var c := " " + OrEmpty(r.pdfPath) + " " + OrEmpty(r.sourceUrl) + " " + r.key + " " + OrEmpty(r.source);
    var whole := OrEmpty(r.doi) + " " + r.title + " " + OrEmpty(r.pdfPath) + " " +
                 OrEmpty(r.sourceUrl) + " " + r.key + " " + OrEmpty(r.source);
    assert whole == a + r.title + c;
    LowerStrConcat(a + r.title, c);
    LowerStrConcat(a, r.title);
    ContainsInside(LowerStr(a), LowerStr(r.title), LowerStr(c), q);
  }

  /** A query found in the lower-cased key of a record finds that record. */
  lemma QueryFindsKey(r: Record, q: string)
    requires Contains(LowerStr(r.key), q)
    ensures Contains(Haystack(r), q)
  {
    var a := OrEmpty(r.doi) + " " + r.title + " " + OrEmpty(r.pdfPath) + " " + OrEmpty(r.sourceUrl) + " ";
    var c := " " + OrEmpty(r.source);
    var whole := OrEmpty(r.doi) + " " + r.title + " " + OrEmpty(r.pdfPath) + " " +
                 OrEmpty(r.sourceUrl) + " " + r.key + " " + OrEmpty(r.source);
    assert whole == a + r.key + c;
    LowerStrConcat(a + r.key, c);
    LowerStrConcat(a, r.key);
    ContainsInside(LowerStr(a), LowerStr(r.key), LowerStr(c), q);
  }

  /** One more record extends the listing by its view exactly when it is kept. */
  lemma ListingSnoc(records: seq<Record>, i: nat, status: string, query: string)
    requires i < |records|
    ensures Listing(records[..i + 1], status, query) ==
            if Kept(records[i], status, query) then Listing(records[..i], status, query) + [ToView(records[i])]
            else Listing(records[..i], status, query)
  {
    assert records[..i + 1][..i] == records[..i];
  }

  /** get_pdf_library: an unknown status filter is refused; otherwise the kept records, newest first. */
  method GetPdfLibrary(index: PdfIndex, q: string, status: string) returns (r: Result<seq<PdfView>, HttpError>)
    requires index.Valid()
    ensures status !in StatusFilters ==> r == Err(HttpError(400, "Invalid status: " + status))
    ensures status in StatusFilters ==> r == Ok(Listing(index.ListRecords(), status, LowerStr(Strip(q))))
  {
    var records := index.ListRecords();
    var query := LowerStr(Strip(q));
    if status !in StatusFilters {
      return Err(HttpError(400, "Invalid status: " + status));
    }
    var filtered: seq<PdfView> := [];
    var i := 0;
    while i < |records|
      invariant 0 <= i <= |records|
      invariant filtered == Listing(records[..i], status, query)
    {
      ListingSnoc(records, i, status, query);
      if Kept(records[i], status, query) {
        filtered := filtered + [ToView(records[i])];
      }
      i := i + 1;
    }
    assert records[..i] == records;
    return Ok(filtered);
  }

  // ------------------------------------------------------------------
  // Statistics
  // ------------------------------------------------------------------

  datatype PdfStats = PdfStats(total: nat, found: nat, missing: nat, managedFiles: nat, externalRefs: nat)

  /** The record points at a file the library does not manage. */
  predicate ExternalRef(r: Record)
  {
    !r.managedFile && r.pdfPath.Some? && r.pdfPath.value != ""
  }

  /** get_pdf_library_stats: counts by raw status and by file ownership. */
  function StatsOf(records: seq<Record>): (s: PdfStats)
    ensures s.total == |records|
    ensures s.found + s.missing <= s.total
    ensures s.managedFiles + s.externalRefs <= s.total
  {
    if records == [] then PdfStats(0, 0, 0, 0, 0)
    else
      var prev := StatsOf(records[..|records| - 1]);
      var r := records[|records| - 1];
      PdfStats(prev.total + 1,
               prev.found + (if r.status == "found" then 1 else 0),
               prev.missing + (if r.status == "missing" then 1 else 0),
               prev.managedFiles + (if r.managedFile then 1 else 0),
               prev.externalRefs + (if ExternalRef(r) then 1 else 0))
  }

  /**
   * The found count is the length of the "found" listing; the missing count
   * never exceeds the "missing" listing, which also takes records whose status
   * is empty.
   */
  lemma {:induction false} StatsMatchListing(records: seq<Record>)
    ensures StatsOf(records).found == |Listing(records, "found", "")|
    ensures StatsOf(records).missing <= |Listing(records, "missing", "")|
    decreases |records|
  {
    if records != [] {
      var init := records[..|records| - 1];
      assert records == init + [records[|records| - 1]];
      StatsMatchListing(init);
    }
  }

  // ------------------------------------------------------------------
  // Download and view
  // ------------------------------------------------------------------

  /** The first record, in listing order, whose id is record_id. */
  function FirstWithId(records: seq<Record>, recordId: string): (r: Option<Record>)
    ensures r.Some? ==> r.value in records && r.value.id == recordId
    ensures r.None? <==> forall x :: x in records ==> x.id != recordId
  {
    if records == [] then None
    else if records[0].id == recordId then Some(records[0])
    else
      var rest := FirstWithId(records[1..], recordId);
      assert forall x :: x in records ==> x == records[0] || x in records[1..];
      rest
  }

  /** s without its trailing slashes. */
  function DropTrailingSlashes(s: string): (r: string)
    ensures r <= s
    ensures r == "" || r[|r| - 1] != '/'
  {
    if s != [] && s[|s| - 1] == '/' then DropTrailingSlashes(s[..|s| - 1]) else s
  }

  /**
   * Path(p).name: the last component of the path. pathlib drops empty and
   * `.` components, so a trailing `/` or `/.` is passed over, and a path of
   * no other component has the empty name.
   */
  function BaseName(p: string): (r: string)
    ensures '/' !in r && r != "."
    decreases |p|
  {
    var t := DropTrailingSlashes(p);
    var k := LastIndexOf(t, '/');
    LastIndexOfIsLast(t);
    if k < |t| && t[k] == '/' then
      if t[k + 1..] == "." then BaseName(t[..k]) else t[k + 1..]
    else if t == "." then ""
    else t
  }

  /** A trailing `.` component does not change the name. */
  lemma BaseNameDotComponent(q: string)
    ensures BaseName(q + "/.") == BaseName(q)
  {
    var t := q + "/.";
    assert DropTrailingSlashes(t) == t;
    assert t[..|t| - 1] == q + "/";
    assert LastIndexOf(t, '/') == |q|;
    assert t[|q| + 1..] == "." && t[..|q|] == q;
  }

  /** The name of `q/n` is n, for a component n other than `.`. */
  lemma BaseNameLastComponent(q: string, n: string)
    requires n != "" && n != "." && '/' !in n
    ensures BaseName(q + "/" + n) == n
  {
    var t := q + "/" + n;
    assert DropTrailingSlashes(t) == t by {
      assert t[|t| - 1] == n[|n| - 1];
    }
    LastIndexOfAfter(q + "/", n);
    assert (q + "/")[..|q|] == q;
    assert t[|q| + 1..] == n;
  }

  /** Appending text without `/` leaves the last `/` where it was. */
  lemma {:induction false} LastIndexOfAfter(s: string, n: string)
    requires '/' !in n && |s| > 0 && s[|s| - 1] == '/'
    ensures LastIndexOf(s + n, '/') == |s| - 1
    decreases |n|
  {
    if |n| > 0 {
      var m := n[..|n| - 1];
      assert (s + n)[..|s + n| - 1] == s + m;
      assert (s + n)[|s + n| - 1] == n[|n| - 1];
      LastIndexOfAfter(s, m);
    } else {
      assert s + n == s;
    }
  }

  /** After the position LastIndexOf reports for '/', no '/' remains; if it is not a '/', there is none. */
  lemma {:induction false} LastIndexOfIsLast(t: string)
    ensures var k := LastIndexOf(t, '/');
            if k < |t| && t[k] == '/' then '/' !in t[k + 1..] else '/' !in t
    decreases |t|
  {
    if t != [] && t[|t| - 1] != '/' {
      var init := t[..|t| - 1];
      LastIndexOfIsLast(init);
      var k := LastIndexOf(init, '/');
      if k < |init| && init[k] == '/' {
        assert t[k + 1..] == init[k + 1..] + [t[|t| - 1]];
      } else {
        assert t == init + [t[|t| - 1]];
      }
    }
  }

  /** The download name: the DOI with slashes made underscores plus ".pdf", or else the file's own name. */
  function DownloadName(doi: Option<string>, path: string): (name: string)
    ensures '/' !in name
    ensures doi.Some? && doi.value != "" ==> EndsWith(name, ".pdf") && |name| == |doi.value| + 4
  {
    if doi.Some? && doi.value != "" then
      var safe := ReplaceChar(doi.value, '/', '_');
      assert forall i :: 0 <= i < |safe| ==> safe[i] != '/';
      safe + ".pdf"
    else BaseName(path)
  }

  datatype Resolved = Resolved(record: Record, path: string, filename: string)

  const NotAvailable := "PDF is not available for this record"
  const PathMissing := "PDF path is missing"
  const NotOnDisk := "PDF file does not exist on disk"

  /** The not-found detail differs from the other three details. */
  lemma NotFoundDetail(recordId: string)
    ensures "PDF record not found: " + recordId !in {NotAvailable, PathMissing, NotOnDisk}
  {
    var d := "PDF record not found: " + recordId;
    assert d[4] == 'r';
    assert NotAvailable[4] == 'i' && PathMissing[4] == 'p' && NotOnDisk[4] == 'f';
  }

  /** _resolve_pdf_file: the first record with the id, found, with a path that exists. */
  function ResolvePdfFile(records: seq<Record>, recordId: string, onDisk: set<string>): (r: Result<Resolved, HttpError>)
    ensures r == Err(HttpError(404, "PDF record not found: " + recordId)) <==>
              forall x :: x in records ==> x.id != recordId
    ensures r.Ok? ==> var rec := r.value.record;
              && rec in records && rec.id == recordId && rec.status == "found"
              && rec.pdfPath == Some(r.value.path) && r.value.path != "" && r.value.path in onDisk
              && r.value.filename == DownloadName(rec.doi, r.value.path)
    ensures FirstWithId(records, recordId).Some? && FirstWithId(records, recordId).value.status != "found" ==>
              r == Err(HttpError(400, NotAvailable))
  {
    NotFoundDetail(recordId);
    match FirstWithId(records, recordId)
    case None => Err(HttpError(404, "PDF record not found: " + recordId))
    case Some(rec) =>
      if rec.status != "found" then Err(HttpError(400, NotAvailable))
      else if rec.pdfPath.None? || rec.pdfPath.value == "" then Err(HttpError(404, PathMissing))
      else if rec.pdfPath.value !in onDisk then Err(HttpError(404, NotOnDisk))
      else Ok(Resolved(rec, rec.pdfPath.value, DownloadName(rec.doi, rec.pdfPath.value)))
  }

  /** The Content-Disposition header of the inline view. */
  function InlineDisposition(filename: string): (h: string)
    ensures StartsWith(h, "inline; filename=\"") && EndsWith(h, "\"")
    ensures |h| == |filename| + 19
  {
    "inline; filename=\"" + filename + "\""
  }

  // ------------------------------------------------------------------
  // Deletion
  // ------------------------------------------------------------------

  /** remove_pdf_record: delete_record, with an unknown id answered by 404. */
  method RemovePdfRecord(index: PdfIndex, recordId: string, deleteFile: bool, existing: set<string>)
    returns (r: Result<Deleted, HttpError>)
    requires index.Valid()
    modifies index
    ensures index.Valid()
    ensures index.version == old(index.version)
    ensures FindById(old(index.order), old(index.records), recordId).None? ==>
              r == Err(HttpError(404, "PDF record not found: " + recordId)) &&
              index.records == old(index.records) && index.order == old(index.order)
    ensures FindById(old(index.order), old(index.records), recordId).Some? ==>
              var (key, rec) := FindById(old(index.order), old(index.records), recordId).value;
              && index.records == old(index.records) - {key}
              && index.order == RemoveKey(old(index.order), key)
              && r.Ok? && r.value.recordId == recordId
              && r.value.removedFile == (deleteFile && rec.pdfPath.Some? && rec.pdfPath.value != ""
                                         && rec.managedFile && rec.pdfPath.value in existing)
  {
    var d := index.DeleteRecord(recordId, deleteFile, existing);
    if d.Err? {
      return Err(HttpError(404, "PDF record not found: " + recordId));
    }
    return Ok(d.value);
  }
}
