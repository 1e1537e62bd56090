/**
 * The import-collection router (app/backend/routers/imports.py): the
 * tag-list parser, the lock that a referencing project puts on an import,
 * and the endpoints that edit an import's meta.json (its name and
 * description and its list of .bib file records).
 *
 * The loaded meta.json is an object whose fields the endpoints assign.
 * The file system, the clock and the scan of the projects directory are
 * parameters: whether a path exists, the entry count bibtexparser read from a
 * copied file, the time `now`, and the project.json records in directory order.
 */
module Imports {
  import opened Wrappers
  import opened Text
  import Perm

  // ---------------------------------------------------------------------
  // Tags
  // ---------------------------------------------------------------------

  /** The lower-cased tags already kept. */
  function TagKeys(tags: seq<string>): set<string>
  {
    set t | t in tags :: LowerStr(t)
  }

  /** The comma-separated items, each stripped. */
  function TagItems(raw: string): seq<string>
  {
    Perm.Map(Strip, Split(raw, ','))
  }

  /** The non-empty items, each kept only if no earlier kept tag is equal ignoring case. */
  function DedupTags(items: seq<string>): seq<string>
  {
    if |items| == 0 then []
    else
      var n := |items| - 1;
      var kept := DedupTags(items[..n]);
      if items[n] == "" || LowerStr(items[n]) in TagKeys(kept) then kept else kept + [items[n]]
  }

  /** parse_tags: nothing for a missing or empty text, else the deduplicated items. */
  function TagsOf(raw: Option<string>): seq<string>
  {
    if raw.None? || raw.value == "" then [] else DedupTags(TagItems(raw.value))
  }

  lemma TagKeysSnoc(tags: seq<string>, t: string)
    ensures TagKeys(tags + [t]) == TagKeys(tags) + {LowerStr(t)}
  {
    assert forall u :: u in tags + [t] <==> u in tags || u == t;
  }

  /** Item i is non-empty and no earlier non-empty item equals it ignoring case: the first spelling of its key. */
  predicate FirstSpelling(items: seq<string>, i: int)
  {
    0 <= i < |items| && items[i] != "" &&
    forall j :: 0 <= j < i && items[j] != "" ==> LowerStr(items[j]) != LowerStr(items[i])
  }

  /** The indices below m that hold a first spelling, ascending. */
  function FirstSpellingsBelow(items: seq<string>, m: nat): (idx: seq<nat>)
    requires m <= |items|
    ensures forall k :: 0 <= k < |idx| ==> idx[k] < m
  {
    if m == 0 then []
    else
      var rest := FirstSpellingsBelow(items, m - 1);
      if FirstSpelling(items, m - 1) then rest + [m - 1] else rest
  }

  /** The indices of all first spellings, ascending. */
  function FirstSpellings(items: seq<string>): seq<nat>
  {
    FirstSpellingsBelow(items, |items|)
  }

  /** The listed indices are first spellings, strictly ascending, and every first spelling below m is listed. */
  lemma {:induction false} FirstSpellingsFacts(items: seq<string>, m: nat)
    requires m <= |items|
    ensures forall k :: 0 <= k < |FirstSpellingsBelow(items, m)| ==> FirstSpelling(items, FirstSpellingsBelow(items, m)[k])
    ensures forall p, q :: 0 <= p < q < |FirstSpellingsBelow(items, m)| ==> FirstSpellingsBelow(items, m)[p] < FirstSpellingsBelow(items, m)[q]
    ensures forall i :: 0 <= i < m && FirstSpelling(items, i) ==> i in FirstSpellingsBelow(items, m)
    decreases m
  {
    if m > 0 {
      FirstSpellingsFacts(items, m - 1);
    }
  }

  /** The kept tags of the first m items are those items at the first spellings below m, in order. */
  lemma {:induction false} DedupTagsFirstSpellings(items: seq<string>, m: nat)
    requires m <= |items|
    ensures |DedupTags(items[..m])| == |FirstSpellingsBelow(items, m)|
    ensures forall k :: 0 <= k < |DedupTags(items[..m])| ==> DedupTags(items[..m])[k] == items[FirstSpellingsBelow(items, m)[k]]
    decreases m
  {
    if m > 0 {
      var n := m - 1;
      DedupTagsFirstSpellings(items, n);
      assert items[..m][..n] == items[..n];
      var kept := DedupTags(items[..n]);
      DedupTagsKeys(items[..n]);
      if items[n] != "" {
        if LowerStr(items[n]) in TagKeys(kept) {
          var t :| t in kept && LowerStr(t) == LowerStr(items[n]);
          var j :| 0 <= j < n && items[..n][j] == t;
          assert items[j] == t;
          assert !FirstSpelling(items, n);
        } else {
          forall j | 0 <= j < n && items[j] != "" ensures LowerStr(items[j]) != LowerStr(items[n]) {
            assert items[..n][j] == items[j];
          }
          assert FirstSpelling(items, n);
        }
      }
    }
  }

  /**
   * The kept tags are non-empty items, no two equal ignoring case, and
   * every non-empty item is represented by a kept tag equal to it ignoring case.
   */
  lemma {:induction false} DedupTagsKeys(items: seq<string>)
    ensures forall t :: t in DedupTags(items) ==> t != "" && t in items
    ensures forall p, q :: 0 <= p < q < |DedupTags(items)| ==> LowerStr(DedupTags(items)[p]) != LowerStr(DedupTags(items)[q])
    ensures forall i :: 0 <= i < |items| && items[i] != "" ==> LowerStr(items[i]) in TagKeys(DedupTags(items))
    decreases |items|
  {
    if |items| > 0 {
      var n := |items| - 1;
      var kept := DedupTags(items[..n]);
      DedupTagsKeys(items[..n]);
      assert items == items[..n] + [items[n]];
      forall i | 0 <= i < n && items[i] != "" ensures LowerStr(items[i]) in TagKeys(kept) {
        assert items[..n][i] == items[i];
      }
      if items[n] != "" && LowerStr(items[n]) !in TagKeys(kept) {
        var r := kept + [items[n]];
        TagKeysSnoc(kept, items[n]);
        forall p, q | 0 <= p < q < |r| ensures LowerStr(r[p]) != LowerStr(r[q]) {
          if q == |kept| {
            assert r[p] == kept[p] && kept[p] in kept;
          } else {
            assert r[p] == kept[p] && r[q] == kept[q];
          }
        }
      }
    }
  }


  /**
   * parse_tags keeps the first spelling of each case-insensitive key, in the
   * items' order: the k-th kept tag is the item at the k-th first-spelling
   * index, those indices ascend, and no first spelling is left out; hence no
   * two kept tags are equal ignoring case and every non-empty item's key is kept.
   */
  lemma DedupTagsFacts(items: seq<string>)
    ensures forall t :: t in DedupTags(items) ==> t != "" && t in items
    ensures forall p, q :: 0 <= p < q < |DedupTags(items)| ==> LowerStr(DedupTags(items)[p]) != LowerStr(DedupTags(items)[q])
    ensures forall i :: 0 <= i < |items| && items[i] != "" ==> LowerStr(items[i]) in TagKeys(DedupTags(items))
    ensures |DedupTags(items)| == |FirstSpellings(items)|
    ensures forall k :: 0 <= k < |DedupTags(items)| ==> DedupTags(items)[k] == items[FirstSpellings(items)[k]]
    ensures forall k :: 0 <= k < |FirstSpellings(items)| ==> FirstSpelling(items, FirstSpellings(items)[k])
    ensures forall p, q :: 0 <= p < q < |FirstSpellings(items)| ==> FirstSpellings(items)[p] < FirstSpellings(items)[q]
    ensures forall i :: FirstSpelling(items, i) ==> i in FirstSpellings(items)
  {
    DedupTagsKeys(items);
    DedupTagsFirstSpellings(items, |items|);
    FirstSpellingsFacts(items, |items|);
    assert items[..|items|] == items;
  }

  /**
   * A parsed tag is non-empty, has no comma and no surrounding whitespace, and
   * no two tags are equal ignoring case; the tags are the items at their first
   * spellings, in item order (those indices ascend, and each is a first spelling).
   */
  lemma TagShape(raw: Option<string>)
    ensures forall t :: t in TagsOf(raw) ==> t != "" && ',' !in t && !IsSpace(t[0]) && !IsSpace(t[|t| - 1])
    ensures forall p, q :: 0 <= p < q < |TagsOf(raw)| ==> LowerStr(TagsOf(raw)[p]) != LowerStr(TagsOf(raw)[q])
    ensures raw.Some? && raw.value != "" ==>
              && |TagsOf(raw)| == |FirstSpellings(TagItems(raw.value))|
              && (forall k :: 0 <= k < |TagsOf(raw)| ==>
                    TagsOf(raw)[k] == TagItems(raw.value)[FirstSpellings(TagItems(raw.value))[k]]
                    && FirstSpelling(TagItems(raw.value), FirstSpellings(TagItems(raw.value))[k]))
              && (forall p, q :: 0 <= p < q < |TagsOf(raw)| ==>
                    FirstSpellings(TagItems(raw.value))[p] < FirstSpellings(TagItems(raw.value))[q])
  {
    if raw.Some? && raw.value != "" {
      var items := TagItems(raw.value);
      DedupTagsFacts(items);
      TagItemsShape(raw.value);
      forall t | t in TagsOf(raw) ensures t != "" && ',' !in t && !IsSpace(t[0]) && !IsSpace(t[|t| - 1]) {
        assert t in items;
      }
    }
  }

  /** Each item is a stripped comma-free piece. */
  lemma TagItemsShape(raw: string)
    ensures forall t :: t in TagItems(raw) ==> ',' !in t && (t != "" ==> !IsSpace(t[0]) && !IsSpace(t[|t| - 1]))
  {
    var pieces := Split(raw, ',');
    var items := TagItems(raw);
    forall t | t in items ensures ',' !in t {
      var k :| 0 <= k < |items| && items[k] == t;
      assert t == Strip(pieces[k]);
    }
  }

  /** parse_tags with its loop over the items and the set of keys seen. */
  method ParseTags(raw: Option<string>) returns (tags: seq<string>)
    ensures tags == TagsOf(raw)
  {
    if raw.None? || raw.value == "" {
      return [];
    }
    var items := TagItems(raw.value);
    var seen: set<string> := {};
    tags := [];
    for i := 0 to |items|
      invariant tags == DedupTags(items[..i]) && seen == TagKeys(tags)
    {
      assert items[..i + 1][..i] == items[..i];
      var item := items[i];
      if item == "" {
        continue;
      }
      var key := LowerStr(item);
      if key in seen {
        continue;
      }
      TagKeysSnoc(tags, item);
      seen := seen + {key};
      tags := tags + [item];
    }
    assert items[..|items|] == items;
  }

  // ---------------------------------------------------------------------
  // Locking
  // ---------------------------------------------------------------------

  /** The fields of a project.json the scan reads; `name` and `source_ids` may be absent. */
  datatype ProjectFile = ProjectFile(id: string, name: Option<string>, sourceIds: Option<seq<string>>)

  datatype ProjectRef = ProjectRef(id: string, name: string)

  predicate References(p: ProjectFile, importId: string)
  {
    importId in p.sourceIds.GetOr([])
  }

  function RefOf(p: ProjectFile): ProjectRef
  {
    ProjectRef(p.id, p.name.GetOr(""))
  }

  /** The projects listing the import among their sources, in scan order. */
  function Referencing(projects: seq<ProjectFile>, importId: string): seq<ProjectRef>
  {
    if |projects| == 0 then []
    else
      var n := |projects| - 1;
      Referencing(projects[..n], importId) + if References(projects[n], importId) then [RefOf(projects[n])] else []
  }

  /** Every reference names a referencing project, and none is missed. */
  lemma {:induction false} ReferencingMeans(projects: seq<ProjectFile>, importId: string)
    ensures forall r :: r in Referencing(projects, importId) <==>
      exists p :: p in projects && References(p, importId) && r == RefOf(p)
    decreases |projects|
  {
    if |projects| > 0 {
      var n := |projects| - 1;
      ReferencingMeans(projects[..n], importId);
      assert projects == projects[..n] + [projects[n]];
    }
  }

  /** get_referencing_projects over the scanned project.json records. */
  method GetReferencingProjects(projects: seq<ProjectFile>, importId: string) returns (refs: seq<ProjectRef>)
    ensures refs == Referencing(projects, importId)
  {
    refs := [];
    for i := 0 to |projects|
      invariant refs == Referencing(projects[..i], importId)
    {
      assert projects[..i + 1][..i] == projects[..i];
      if References(projects[i], importId) {
        refs := refs + [RefOf(projects[i])];
      }
    }
    assert projects[..|projects|] == projects;
  }

  function RefNames(refs: seq<ProjectRef>): seq<string>
  {
    Perm.Map((r: ProjectRef) => r.name, refs)
  }

  /** check_not_locked: 409 naming the referencing projects when there are any. */
  function LockCheck(refs: seq<ProjectRef>): (r: Option<HttpError>)
    ensures r.None? <==> refs == []
    ensures r.Some? ==> r.value == HttpError(409, "Import is locked (referenced by: " + Join(RefNames(refs), ", ") + ")")
  {
    if refs == [] then None
    else Some(HttpError(409, "Import is locked (referenced by: " + Join(RefNames(refs), ", ") + ")"))
  }

  /** An import some project lists is locked; one no project lists is not. */
  lemma LockedIffReferenced(projects: seq<ProjectFile>, importId: string)
    ensures LockCheck(Referencing(projects, importId)).Some? <==> exists p :: p in projects && References(p, importId)
  {
    ReferencingMeans(projects, importId);
    if p :| p in projects && References(p, importId) {
      assert RefOf(p) in Referencing(projects, importId);
    }
  }

  // ---------------------------------------------------------------------
  // File records
  // ---------------------------------------------------------------------

  datatype ImportFile = ImportFile(filename: string, database: string, searchQuery: string, searchDate: string,
                                   url: Option<string>, tags: seq<string>, count: nat)

  /** The records other than those of that file name, in order. */
  function WithoutFile(files: seq<ImportFile>, filename: string): (r: seq<ImportFile>)
    ensures forall f :: f in r <==> f in files && f.filename != filename
  {
    if |files| == 0 then []
    else
      var n := |files| - 1;
      assert files == files[..n] + [files[n]];
      WithoutFile(files[..n], filename) + if files[n].filename != filename then [files[n]] else []
  }

  /** The list after an add or an upload: the namesakes dropped, the new record last. */
  function Replaced(files: seq<ImportFile>, file: ImportFile): (r: seq<ImportFile>)
    ensures |r| > 0 && r[|r| - 1] == file
    ensures forall f :: f in r <==> f == file || (f in files && f.filename != file.filename)
  {
    WithoutFile(files, file.filename) + [file]
  }

  /** The first record with that file name. */
  function FirstNamed(files: seq<ImportFile>, filename: string): (r: Option<nat>)
    ensures r.Some? ==> r.value < |files| && files[r.value].filename == filename
    ensures r.Some? ==> forall k :: 0 <= k < r.value ==> files[k].filename != filename
    ensures r.None? ==> forall k :: 0 <= k < |files| ==> files[k].filename != filename
  {
    if |files| == 0 then None
    else if files[0].filename == filename then Some(0)
    else match FirstNamed(files[1..], filename)
      case None => None
      case Some(k) => Some(k + 1)
  }

  /** The editable fields of a file record; each may be absent. */
  datatype FileUpdate = FileUpdate(database: Option<string>, searchQuery: Option<string>, searchDate: Option<string>,
                                   url: Option<string>, tags: Option<string>)

  /** update_file's change of one record: given fields replace, a blank URL clears it, tags are parsed. */
  function ApplyUpdate(f: ImportFile, u: FileUpdate): (r: ImportFile)
    ensures r.filename == f.filename && r.count == f.count
    ensures r.database == u.database.GetOr(f.database)
    ensures r.searchQuery == u.searchQuery.GetOr(f.searchQuery) && r.searchDate == u.searchDate.GetOr(f.searchDate)
    ensures u.url.None? ==> r.url == f.url
    ensures u.url.Some? ==> (r.url.None? <==> Strip(u.url.value) == "")
    ensures r.url.Some? && u.url.Some? ==> r.url.value == Strip(u.url.value)
    ensures r.tags == if u.tags.Some? then TagsOf(u.tags) else f.tags
  {
    var url := if u.url.None? then f.url else if Strip(u.url.value) != "" then Some(Strip(u.url.value)) else None;
    ImportFile(f.filename, u.database.GetOr(f.database), u.searchQuery.GetOr(f.searchQuery),
               u.searchDate.GetOr(f.searchDate), url, if u.tags.Some? then TagsOf(u.tags) else f.tags, f.count)
  }

  /** The total of the entry counts. */
  function TotalEntries(files: seq<ImportFile>): nat
  {
    if |files| == 0 then 0 else TotalEntries(files[..|files| - 1]) + files[|files| - 1].count
  }

  /** A line of list_imports. */
  datatype ImportSummary = ImportSummary(id: string, name: string, description: string, fileCount: nat, totalEntryCount: nat,
                                         databases: set<string>, isLocked: bool, referencingProjectCount: nat)

  /** A query preset: a file record that carries a search query. */
  datatype QueryPreset = QueryPreset(filename: string, database: string, searchQuery: string, searchDate: string,
                                     url: Option<string>, tags: seq<string>, count: nat)

  predicate HasQuery(f: ImportFile)
  {
    Strip(f.searchQuery) != ""
  }

  function PresetOf(f: ImportFile): QueryPreset
  {
    QueryPreset(f.filename, f.database, f.searchQuery, f.searchDate, f.url, f.tags, f.count)
  }

  /** The presets of the records with a non-blank query, in record order. */
  function Presets(files: seq<ImportFile>): seq<QueryPreset>
  {
    if |files| == 0 then []
    else
      var n := |files| - 1;
      Presets(files[..n]) + if HasQuery(files[n]) then [PresetOf(files[n])] else []
  }

  /** Each preset comes from a record with a query, and every such record gives one. */
  lemma {:induction false} PresetsMeans(files: seq<ImportFile>)
    ensures forall p :: p in Presets(files) <==> exists f :: f in files && HasQuery(f) && p == PresetOf(f)
    ensures forall p :: p in Presets(files) ==> Strip(p.searchQuery) != ""
    decreases |files|
  {
    if |files| > 0 {
      var n := |files| - 1;
      PresetsMeans(files[..n]);
      assert files == files[..n] + [files[n]];
    }
  }

  /** get_query_presets over the loaded records. */
  method QueryPresets(files: seq<ImportFile>) returns (presets: seq<QueryPreset>)
    ensures presets == Presets(files)
  {
    presets := [];
    for i := 0 to |files|
      invariant presets == Presets(files[..i])
    {
      assert files[..i + 1][..i] == files[..i];
      if HasQuery(files[i]) {
        presets := presets + [PresetOf(files[i])];
      }
    }
    assert files[..|files|] == files;
  }

  const NotBib: string := "File must be a .bib file"

  /** A loaded meta.json of an import. */
  class ImportMeta {
    var id: string
    var name: string
    var description: string
    var files: seq<ImportFile>
    var createdAt: string
    var updatedAt: string

    /** create_import: a new, empty collection stamped with `now`. */
    constructor Create(id: string, name: string, description: string, now: string)
      ensures this.id == id && this.name == name && this.description == description
      ensures files == [] && createdAt == now && updatedAt == now
    {
      this.id := id;
      this.name := name;
      this.description := description;
      files := [];
      createdAt := now;
      updatedAt := now;
    }

    /** list_imports' line for this import, given the projects that reference it. */
    function Summary(refs: seq<ProjectRef>): (r: ImportSummary)
      reads this
      ensures r.fileCount == |files| && r.totalEntryCount == TotalEntries(files)
      ensures forall d :: d in r.databases <==> exists k :: 0 <= k < |files| && files[k].database == d
      ensures r.isLocked <==> LockCheck(refs).Some?
      ensures r.referencingProjectCount == |refs|
    {
      ImportSummary(id, name, description, |files|, TotalEntries(files), set k | 0 <= k < |files| :: files[k].database,
                    |refs| > 0, |refs|)
    }

    /** update_import: refused while locked; otherwise the given fields replace the old ones. */
    method UpdateImport(refs: seq<ProjectRef>, newName: Option<string>, newDescription: Option<string>, now: string)
      returns (err: Option<HttpError>)
      modifies this
      ensures err == LockCheck(refs)
      ensures err.Some? ==> name == old(name) && description == old(description) && updatedAt == old(updatedAt)
      ensures err.None? ==> name == newName.GetOr(old(name)) && description == newDescription.GetOr(old(description)) && updatedAt == now
      ensures id == old(id) && files == old(files) && createdAt == old(createdAt)
    {
      err := LockCheck(refs);
      if err.Some? {
        return;
      }
      if newName.Some? {
        name := newName.value;
      }
      if newDescription.Some? {
        description := newDescription.value;
      }
      updatedAt := now;
    }

    /** duplicate_import's rewrite of the copied meta.json: new id and times, and " (copy)" after the name. */
    method Duplicate(newId: string, now: string)
      modifies this
      ensures id == newId && createdAt == now && updatedAt == now
      ensures name == old(name) + " (copy)"
      ensures description == old(description) && files == old(files)
    {
      id := newId;
      createdAt := now;
      updatedAt := now;
      name := name + " (copy)";
    }

    /** The shared tail of add_from_path and upload_file: the record replaces its namesakes. */
    method Put(file: ImportFile, now: string)
      modifies this
      ensures files == Replaced(old(files), file) && updatedAt == now
      ensures id == old(id) && name == old(name) && description == old(description) && createdAt == old(createdAt)
    {
      files := WithoutFile(files, file.filename) + [file];
      updatedAt := now;
    }

    /**
     * add_from_path: refused while locked, for a missing path (404) or a
     * name without .bib (400); otherwise the copied file's record, with its
     * tags parsed, replaces any record of that name.
     */
    method AddFromPath(refs: seq<ProjectRef>, sourceExists: bool, path: string, filename: string, database: string,
                       searchQuery: string, searchDate: string, url: Option<string>, tags: Option<string>,
                       count: nat, now: string) returns (r: Result<ImportFile, HttpError>)
      modifies this
      ensures LockCheck(refs).Some? ==> r == Err(LockCheck(refs).value)
      ensures LockCheck(refs).None? && !sourceExists ==> r == Err(HttpError(404, "File not found: " + path))
      ensures LockCheck(refs).None? && sourceExists && !EndsWith(filename, ".bib") ==> r == Err(HttpError(400, NotBib))
      ensures r.Err? ==> files == old(files) && updatedAt == old(updatedAt)
      ensures r.Ok? <==> LockCheck(refs).None? && sourceExists && EndsWith(filename, ".bib")
      ensures r.Ok? ==>
        && r.value == ImportFile(filename, database, searchQuery, searchDate, url, TagsOf(tags), count)
        && files == Replaced(old(files), r.value) && updatedAt == now
      ensures id == old(id) && name == old(name) && description == old(description) && createdAt == old(createdAt)
    {
      var locked := LockCheck(refs);
      if locked.Some? {
        return Err(locked.value);
      }
      if !sourceExists {
        return Err(HttpError(404, "File not found: " + path));
      }
      if !EndsWith(filename, ".bib") {
        return Err(HttpError(400, NotBib));
      }
      var parsed := ParseTags(tags);
      var file := ImportFile(filename, database, searchQuery, searchDate, url, parsed, count);
      Put(file, now);
      return Ok(file);
    }

    /** upload_file: refused while locked or for a missing or non-.bib name (400); otherwise as add_from_path. */
    method UploadFile(refs: seq<ProjectRef>, filename: string, database: string, searchQuery: string, searchDate: string,
                      url: Option<string>, tags: Option<string>, count: nat, now: string)
      returns (r: Result<ImportFile, HttpError>)
      modifies this
      ensures LockCheck(refs).Some? ==> r == Err(LockCheck(refs).value)
      ensures LockCheck(refs).None? && (filename == "" || !EndsWith(filename, ".bib")) ==> r == Err(HttpError(400, NotBib))
      ensures r.Err? ==> files == old(files) && updatedAt == old(updatedAt)
      ensures r.Ok? <==> LockCheck(refs).None? && filename != "" && EndsWith(filename, ".bib")
      ensures r.Ok? ==>
        && r.value == ImportFile(filename, database, searchQuery, searchDate, url, TagsOf(tags), count)
        && files == Replaced(old(files), r.value) && updatedAt == now
      ensures id == old(id) && name == old(name) && description == old(description) && createdAt == old(createdAt)
    {
      var locked := LockCheck(refs);
      if locked.Some? {
        return Err(locked.value);
      }
      if filename == "" || !EndsWith(filename, ".bib") {
        return Err(HttpError(400, NotBib));
      }
      var parsed := ParseTags(tags);
      var file := ImportFile(filename, database, searchQuery, searchDate, url, parsed, count);
      Put(file, now);
      return Ok(file);
    }

    /** delete_file: refused while locked or for a missing file (404); otherwise every record of that name goes. */
    method DeleteFile(refs: seq<ProjectRef>, filename: string, fileExists: bool, now: string)
      returns (r: Result<string, HttpError>)
      modifies this
      ensures LockCheck(refs).Some? ==> r == Err(LockCheck(refs).value)
      ensures LockCheck(refs).None? && !fileExists ==> r == Err(HttpError(404, "File not found: " + filename))
      ensures r.Err? ==> files == old(files) && updatedAt == old(updatedAt)
      ensures r.Ok? <==> LockCheck(refs).None? && fileExists
      ensures r.Ok? ==> r.value == filename && files == WithoutFile(old(files), filename) && updatedAt == now
      ensures id == old(id) && name == old(name) && description == old(description) && createdAt == old(createdAt)
    {
      var locked := LockCheck(refs);
      if locked.Some? {
        return Err(locked.value);
      }
      if !fileExists {
        return Err(HttpError(404, "File not found: " + filename));
      }
      files := WithoutFile(files, filename);
      updatedAt := now;
      return Ok(filename);
    }

    /**
     * update_file: refused while locked; 404 when no record has that name;
     * otherwise the first record of that name is updated in place and the
     * others are untouched.
     */
    method UpdateFile(refs: seq<ProjectRef>, filename: string, u: FileUpdate, now: string)
      returns (r: Result<ImportFile, HttpError>)
      modifies this
      ensures LockCheck(refs).Some? ==> r == Err(LockCheck(refs).value)
      ensures LockCheck(refs).None? && FirstNamed(old(files), filename).None? ==>
        r == Err(HttpError(404, "File not found: " + filename))
      ensures r.Err? ==> files == old(files) && updatedAt == old(updatedAt)
      ensures r.Ok? <==> LockCheck(refs).None? && FirstNamed(old(files), filename).Some?
      ensures r.Ok? ==>
        var k := FirstNamed(old(files), filename).value;
        && r.value == ApplyUpdate(old(files)[k], u)
        && files == old(files)[k := r.value] && updatedAt == now
      ensures id == old(id) && name == old(name) && description == old(description) && createdAt == old(createdAt)
    {
      var locked := LockCheck(refs);
      if locked.Some? {
        return Err(locked.value);
      }
      var k := 0;
      while k < |files| && files[k].filename != filename
        invariant 0 <= k <= |files|
        invariant forall m :: 0 <= m < k ==> files[m].filename != filename
      {
        k := k + 1;
      }
      FirstNamedAt(files, filename, k);
      if k == |files| {
        return Err(HttpError(404, "File not found: " + filename));
      }
      var target := files[k];
      var tags := target.tags;
      if u.tags.Some? {
        tags := ParseTags(u.tags);
      }
      var url := target.url;
      if u.url.Some? {
        url := if Strip(u.url.value) != "" then Some(Strip(u.url.value)) else None;
      }
      var updated := ImportFile(target.filename, u.database.GetOr(target.database), u.searchQuery.GetOr(target.searchQuery),
                                u.searchDate.GetOr(target.searchDate), url, tags, target.count);
      files := files[k := updated];
      updatedAt := now;
      return Ok(updated);
    }
  }

  /** The scan's stopping point is FirstNamed's answer. */
  lemma {:induction false} FirstNamedAt(files: seq<ImportFile>, filename: string, k: nat)
    requires k <= |files| && forall m :: 0 <= m < k ==> files[m].filename != filename
    requires k < |files| ==> files[k].filename == filename
    ensures FirstNamed(files, filename) == if k < |files| then Some(k) else None
    decreases k
  {
    if k > 0 {
      FirstNamedAt(files[1..], filename, k - 1);
    }
  }

  /** After an update the record keeps its name and stays the first of that name. */
  lemma UpdateKeepsName(files: seq<ImportFile>, filename: string, u: FileUpdate)
    requires FirstNamed(files, filename).Some?
    ensures var k := FirstNamed(files, filename).value;
      FirstNamed(files[k := ApplyUpdate(files[k], u)], filename) == Some(k)
  {
    var k := FirstNamed(files, filename).value;
    FirstNamedAt(files[k := ApplyUpdate(files[k], u)], filename, k);
  }
}
