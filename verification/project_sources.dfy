/**
 * The source-file router of a project (app/backend/routers/sources.py).
 *
 * A project's sources are .bib files in two categories, `databases` and
 * `other`, described by sources/meta.json: one list of file records per
 * category and the totals of their entry counts. The model keeps a loaded
 * meta.json as an object whose lists and totals the endpoints rebuild in
 * place. The file system is seen through parameters: whether a path
 * exists, and the number of entries bibtexparser read from a copied file.
 */
module ProjectSources {
  import opened Wrappers
  import opened Text

  /** A source file record; the search fields are absent in the screening application's records. */
  datatype SourceFile = SourceFile(filename: string, category: string, count: nat, database: Option<string>,
                                   searchQuery: Option<string>, searchDate: Option<string>)

  datatype Totals = Totals(databases: nat, other: nat, combined: nat)

  predicate ValidCategory(category: string)
  {
    category == "databases" || category == "other"
  }

  const BadCategory: string := "Category must be 'databases' or 'other'"
  const NotBib: string := "File must be a .bib file"

  /** The list without the records of that file name, the others in order. */
  function WithoutFile(files: seq<SourceFile>, filename: string): (r: seq<SourceFile>)
    ensures forall s :: s in r <==> s in files && s.filename != filename
  {
    if |files| == 0 then []
    else
      var n := |files| - 1;
      assert files == files[..n] + [files[n]];
      WithoutFile(files[..n], filename) + if files[n].filename != filename then [files[n]] else []
  }

  /** The records of that file name. */
  function OnlyFile(files: seq<SourceFile>, filename: string): (r: seq<SourceFile>)
    ensures forall s :: s in r <==> s in files && s.filename == filename
  {
    if |files| == 0 then []
    else
      var n := |files| - 1;
      assert files == files[..n] + [files[n]];
      OnlyFile(files[..n], filename) + if files[n].filename == filename then [files[n]] else []
  }

  /** The list after an add or an upload: any record of the same name dropped, the new one last. */
  function Replaced(files: seq<SourceFile>, file: SourceFile): seq<SourceFile>
  {
    WithoutFile(files, file.filename) + [file]
  }

  /** The sum of the entry counts. */
  function SumCounts(files: seq<SourceFile>): nat
  {
    if |files| == 0 then 0 else SumCounts(files[..|files| - 1]) + files[|files| - 1].count
  }

  /** The totals the endpoints write after every change: each category's sum, and both together. */
  function TotalsOf(databases: seq<SourceFile>, other: seq<SourceFile>): (r: Totals)
    ensures r.combined == r.databases + r.other
    ensures r.databases == SumCounts(databases) && r.other == SumCounts(other)
  {
    Totals(SumCounts(databases), SumCounts(other), SumCounts(databases) + SumCounts(other))
  }

  /** No two records share a file name. */
  predicate UniqueNames(files: seq<SourceFile>)
  {
    forall p, q :: 0 <= p < q < |files| ==> files[p].filename != files[q].filename
  }

  lemma SumSnoc(files: seq<SourceFile>, f: SourceFile)
    ensures SumCounts(files + [f]) == SumCounts(files) + f.count
  {
    assert (files + [f])[..|files|] == files;
  }

  /** Splitting the list by one file name splits the sum. */
  lemma {:induction false} SumSplit(files: seq<SourceFile>, filename: string)
    ensures SumCounts(WithoutFile(files, filename)) + SumCounts(OnlyFile(files, filename)) == SumCounts(files)
    decreases |files|
  {
    if |files| > 0 {
      var n := |files| - 1;
      var w, o := WithoutFile(files[..n], filename), OnlyFile(files[..n], filename);
      SumSplit(files[..n], filename);
      assert SumCounts(files) == SumCounts(files[..n]) + files[n].count;
      if files[n].filename != filename {
        assert WithoutFile(files, filename) == w + [files[n]] && OnlyFile(files, filename) == o;
        SumSnoc(w, files[n]);
      } else {
        assert WithoutFile(files, filename) == w && OnlyFile(files, filename) == o + [files[n]];
        SumSnoc(o, files[n]);
      }
    }
  }

  /** Appending a record whose name is new keeps the names unique. */
  lemma SnocUnique(files: seq<SourceFile>, f: SourceFile)
    requires UniqueNames(files)
    requires forall s :: s in files ==> s.filename != f.filename
    ensures UniqueNames(files + [f])
  {
    var r := files + [f];
    forall p, q | 0 <= p < q < |r| ensures r[p].filename != r[q].filename {
      assert r[p] == files[p] && files[p] in files;
      if q < |files| {
        assert r[q] == files[q];
      }
    }
  }

  /** A record taken from a list with unique names is the only one of its name. */
  lemma {:induction false} OnlyFileUnique(files: seq<SourceFile>, filename: string)
    requires UniqueNames(files)
    ensures |OnlyFile(files, filename)| <= 1
    decreases |files|
  {
    if |files| > 0 {
      var n := |files| - 1;
      OnlyFileUnique(files[..n], filename);
      if files[n].filename == filename {
        forall s | s in files[..n] ensures s.filename != filename {
          var k :| 0 <= k < n && files[..n][k] == s;
          assert files[k] == s;
        }
        NoneNamed(files[..n], filename);
      }
    }
  }

  /** A list without that name has no records of it. */
  lemma {:induction false} NoneNamed(files: seq<SourceFile>, filename: string)
    requires forall s :: s in files ==> s.filename != filename
    ensures OnlyFile(files, filename) == []
    decreases |files|
  {
    if |files| > 0 {
      NoneNamed(files[..|files| - 1], filename);
    }
  }

  /** Filtering keeps unique names unique. */
  lemma {:induction false} WithoutFileUnique(files: seq<SourceFile>, filename: string)
    requires UniqueNames(files)
    ensures UniqueNames(WithoutFile(files, filename))
    decreases |files|
  {
    if |files| > 0 {
      var n := |files| - 1;
      var init := files[..n];
      var last := files[n];
      assert UniqueNames(init);
      WithoutFileUnique(init, filename);
      var prev := WithoutFile(init, filename);
      if last.filename != filename {
        assert WithoutFile(files, filename) == prev + [last];
        forall s | s in prev ensures s.filename != last.filename {
          assert s in init;
          var k :| 0 <= k < n && init[k] == s;
          assert files[k] == s;
        }
        SnocUnique(prev, last);
      } else {
        assert WithoutFile(files, filename) == prev;
      }
    }
  }

  /**
   * Replacing keeps one record per file name, the new record last, and the
   * sum moves by the new count less the count of the record it replaces.
   */
  lemma ReplacedFacts(files: seq<SourceFile>, file: SourceFile)
    requires UniqueNames(files)
    ensures UniqueNames(Replaced(files, file))
    ensures SumCounts(Replaced(files, file)) + SumCounts(OnlyFile(files, file.filename)) == SumCounts(files) + file.count
    ensures |OnlyFile(files, file.filename)| <= 1
  {
    WithoutFileUnique(files, file.filename);
    SnocUnique(WithoutFile(files, file.filename), file);
    SumSnoc(WithoutFile(files, file.filename), file);
    SumSplit(files, file.filename);
    OnlyFileUnique(files, file.filename);
  }

  /** Removing keeps one record per file name and takes that name's count out of the sum. */
  lemma WithoutFileFacts(files: seq<SourceFile>, filename: string)
    requires UniqueNames(files)
    ensures UniqueNames(WithoutFile(files, filename))
    ensures SumCounts(WithoutFile(files, filename)) + SumCounts(OnlyFile(files, filename)) == SumCounts(files)
    ensures |OnlyFile(files, filename)| <= 1
  {
    WithoutFileUnique(files, filename);
    SumSplit(files, filename);
    OnlyFileUnique(files, filename);
  }

  /** The checks of add_from_path, in order: the source path exists, it names a .bib file, the category is known. */
  function CheckAdd(sourceExists: bool, path: string, filename: string, category: string): (r: Option<HttpError>)
    ensures r.None? <==> sourceExists && EndsWith(filename, ".bib") && ValidCategory(category)
    ensures !sourceExists ==> r == Some(HttpError(404, "File not found: " + path))
    ensures sourceExists && r.Some? ==> r.value.status == 400
  {
    if !sourceExists then Some(HttpError(404, "File not found: " + path))
    else if !EndsWith(filename, ".bib") then Some(HttpError(400, NotBib))
    else if !ValidCategory(category) then Some(HttpError(400, BadCategory))
    else None
  }

  /** The checks of upload_source, in order: a .bib file name, a known category. */
  function CheckUpload(filename: string, category: string): (r: Option<HttpError>)
    ensures r.None? <==> EndsWith(filename, ".bib") && ValidCategory(category)
    ensures r.Some? ==> r.value.status == 400
    ensures !EndsWith(filename, ".bib") ==> r == Some(HttpError(400, NotBib))
  {
    if !EndsWith(filename, ".bib") then Some(HttpError(400, NotBib))
    else if !ValidCategory(category) then Some(HttpError(400, BadCategory))
    else None
  }

  /** The checks of delete_source, in order: a known category, then a file that exists. */
  function CheckDelete(category: string, filename: string, fileExists: bool): (r: Option<HttpError>)
    ensures r.None? <==> ValidCategory(category) && fileExists
    ensures !ValidCategory(category) ==> r == Some(HttpError(400, BadCategory))
    ensures ValidCategory(category) && !fileExists ==> r == Some(HttpError(404, "File not found: " + filename))
  {
    if !ValidCategory(category) then Some(HttpError(400, BadCategory))
    else if !fileExists then Some(HttpError(404, "File not found: " + filename))
    else None
  }

  /** A loaded sources/meta.json. */
  class SourcesMeta {
    var databases: seq<SourceFile>
    var other: seq<SourceFile>
    var totals: Totals

    /** The consistent state every endpoint leaves behind. */
    ghost predicate Valid()
      reads this
    {
      UniqueNames(databases) && UniqueNames(other) && totals == TotalsOf(databases, other)
    }

    /** load_sources_meta when meta.json does not exist yet. */
    constructor Empty()
      ensures Valid()
      ensures databases == [] && other == [] && totals == Totals(0, 0, 0)
    {
      databases := [];
      other := [];
      totals := Totals(0, 0, 0);
    }

    /** The totals recomputed from the two lists. */
    method UpdateTotals()
      modifies this
      ensures totals == TotalsOf(databases, other)
      ensures databases == old(databases) && other == old(other)
    {
      totals := TotalsOf(databases, other);
    }

    /** The shared tail of add_from_path and upload_source: the record replaces its namesake in its category. */
    method Put(file: SourceFile)
      requires ValidCategory(file.category)
      modifies this
      ensures file.category == "databases" ==> databases == Replaced(old(databases), file) && other == old(other)
      ensures file.category == "other" ==> other == Replaced(old(other), file) && databases == old(databases)
      ensures totals == TotalsOf(databases, other)
      ensures old(Valid()) ==> Valid()
    {
      if file.category == "databases" {
        if UniqueNames(databases) { ReplacedFacts(databases, file); }
        databases := Replaced(databases, file);
      } else {
        if UniqueNames(other) { ReplacedFacts(other, file); }
        other := Replaced(other, file);
      }
      UpdateTotals();
    }

    /**
     * add_from_path: after the checks, the file copied into its category
     * (not modelled) and recorded with the entry count read from the copy.
     */
    method AddFromPath(sourceExists: bool, path: string, filename: string, category: string, count: nat,
                       database: Option<string>, searchQuery: Option<string>, searchDate: Option<string>)
      returns (r: Result<SourceFile, HttpError>)
      requires Valid()
      modifies this
      ensures Valid()
      ensures CheckAdd(sourceExists, path, filename, category).Some? ==>
        r == Err(CheckAdd(sourceExists, path, filename, category).value) &&
        databases == old(databases) && other == old(other) && totals == old(totals)
      ensures CheckAdd(sourceExists, path, filename, category).None? ==>
        var file := SourceFile(filename, category, count, database, searchQuery, searchDate);
        && r == Ok(file)
        && (category == "databases" ==> databases == Replaced(old(databases), file) && other == old(other))
        && (category == "other" ==> other == Replaced(old(other), file) && databases == old(databases))
    {
      var check := CheckAdd(sourceExists, path, filename, category);
      if check.Some? {
        return Err(check.value);
      }
      var file := SourceFile(filename, category, count, database, searchQuery, searchDate);
      Put(file);
      return Ok(file);
    }

    /** upload_source: after the checks, the uploaded file saved (not modelled) and recorded. */
    method Upload(filename: string, category: string, count: nat,
                  database: Option<string>, searchQuery: Option<string>, searchDate: Option<string>)
      returns (r: Result<SourceFile, HttpError>)
      requires Valid()
      modifies this
      ensures Valid()
      ensures CheckUpload(filename, category).Some? ==>
        r == Err(CheckUpload(filename, category).value) &&
        databases == old(databases) && other == old(other) && totals == old(totals)
      ensures CheckUpload(filename, category).None? ==>
        var file := SourceFile(filename, category, count, database, searchQuery, searchDate);
        && r == Ok(file)
        && (category == "databases" ==> databases == Replaced(old(databases), file) && other == old(other))
        && (category == "other" ==> other == Replaced(old(other), file) && databases == old(databases))
    {
      var check := CheckUpload(filename, category);
      if check.Some? {
        return Err(check.value);
      }
      var file := SourceFile(filename, category, count, database, searchQuery, searchDate);
      Put(file);
      return Ok(file);
    }

    /** delete_source: after the checks, the file removed (not modelled) and dropped from its category's list only. */
    method Delete(category: string, filename: string, fileExists: bool) returns (r: Result<string, HttpError>)
      requires Valid()
      modifies this
      ensures Valid()
      ensures CheckDelete(category, filename, fileExists).Some? ==>
        r == Err(CheckDelete(category, filename, fileExists).value) &&
        databases == old(databases) && other == old(other) && totals == old(totals)
      ensures CheckDelete(category, filename, fileExists).None? ==>
        && r == Ok(filename)
        && (category == "databases" ==> databases == WithoutFile(old(databases), filename) && other == old(other))
        && (category == "other" ==> other == WithoutFile(old(other), filename) && databases == old(databases))
    {
      var check := CheckDelete(category, filename, fileExists);
      if check.Some? {
        return Err(check.value);
      }
      if category == "databases" {
        WithoutFileFacts(databases, filename);
        databases := WithoutFile(databases, filename);
      } else {
        WithoutFileFacts(other, filename);
        other := WithoutFile(other, filename);
      }
      UpdateTotals();
      return Ok(filename);
    }
  }
}
