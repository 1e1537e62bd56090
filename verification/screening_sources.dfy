/**
 * The source-file router of the screening application
 * (screening/app/backend/routers/sources.py). Its meta.json, checks and
 * list updates are those of the main application's router; its records
 * carry no search query or search date, so the model records both as absent.
 */
module ScreeningSources {
  import opened Wrappers
  import opened ProjectSources

  /** add_from_path: the checks, then the record replaces its namesake in its category. */
  method AddFromPath(meta: SourcesMeta, sourceExists: bool, path: string, filename: string, category: string,
                     count: nat, database: Option<string>) returns (r: Result<SourceFile, HttpError>)
    requires meta.Valid()
    modifies meta
    ensures meta.Valid()
    ensures CheckAdd(sourceExists, path, filename, category).Some? ==>
      r == Err(CheckAdd(sourceExists, path, filename, category).value) &&
      meta.databases == old(meta.databases) && meta.other == old(meta.other)
    ensures CheckAdd(sourceExists, path, filename, category).None? ==>
      var file := SourceFile(filename, category, count, database, None, None);
      && r == Ok(file)
      && (category == "databases" ==> meta.databases == Replaced(old(meta.databases), file) && meta.other == old(meta.other))
      && (category == "other" ==> meta.other == Replaced(old(meta.other), file) && meta.databases == old(meta.databases))
  {
    r := meta.AddFromPath(sourceExists, path, filename, category, count, database, None, None);
  }

  /** upload_source: the checks, then the record replaces its namesake in its category. */
  method Upload(meta: SourcesMeta, filename: string, category: string, count: nat, database: Option<string>)
    returns (r: Result<SourceFile, HttpError>)
    requires meta.Valid()
    modifies meta
    ensures meta.Valid()
    ensures CheckUpload(filename, category).Some? ==>
      r == Err(CheckUpload(filename, category).value) &&
      meta.databases == old(meta.databases) && meta.other == old(meta.other)
    ensures CheckUpload(filename, category).None? ==>
      var file := SourceFile(filename, category, count, database, None, None);
      && r == Ok(file)
      && (category == "databases" ==> meta.databases == Replaced(old(meta.databases), file) && meta.other == old(meta.other))
      && (category == "other" ==> meta.other == Replaced(old(meta.other), file) && meta.databases == old(meta.databases))
  {
    r := meta.Upload(filename, category, count, database, None, None);
  }

  /** delete_source: a known category, a file that exists, then that name dropped from its category's list only. */
  method Delete(meta: SourcesMeta, category: string, filename: string, fileExists: bool) returns (r: Result<string, HttpError>)
    requires meta.Valid()
    modifies meta
    ensures meta.Valid()
    ensures CheckDelete(category, filename, fileExists).Some? ==>
      r == Err(CheckDelete(category, filename, fileExists).value) &&
      meta.databases == old(meta.databases) && meta.other == old(meta.other)
    ensures CheckDelete(category, filename, fileExists).None? ==>
      && r == Ok(filename)
      && (category == "databases" ==> meta.databases == WithoutFile(old(meta.databases), filename) && meta.other == old(meta.other))
      && (category == "other" ==> meta.other == WithoutFile(old(meta.other), filename) && meta.databases == old(meta.databases))
  {
    r := meta.Delete(category, filename, fileExists);
  }
}
