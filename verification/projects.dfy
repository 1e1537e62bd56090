/**
 * The project router (app/backend/routers/projects.py): project metadata
 * updates, the name a duplicate gets, the steps a duplicate keeps, and the
 * list of import collections a project draws its sources from.
 *
 * A loaded project.json is an object whose fields the endpoints assign.
 * Directory scans and copies are outside the model: the names of the
 * existing projects, whether an import or a step directory exists, the
 * new id and the time `now` are parameters.
 */
module Projects {
  import opened Wrappers
  import opened Text
  import opened ScreeningPipeline
  import Perm

  // ---------------------------------------------------------------------
  // Copy names
  // ---------------------------------------------------------------------

  /** The text `$` anchors against: Python's `$` also matches just before one final newline. */
  function Anchored(s: string): (r: string)
    ensures |r| <= |s| && r == s[..|r|]
  {
    if |s| > 0 && s[|s| - 1] == '\n' then s[..|s| - 1] else s
  }

  /** The length of the run of ASCII digits at the end of s. */
  function TrailingDigits(s: string): (k: nat)
    ensures k <= |s| && forall i :: |s| - k <= i < |s| ==> IsDigit(s[i])
    ensures k < |s| ==> !IsDigit(s[|s| - k - 1])
  {
    if |s| == 0 || !IsDigit(s[|s| - 1]) then 0 else TrailingDigits(s[..|s| - 1]) + 1
  }

  /** The length of the run of whitespace at the end of s. */
  function TrailingSpaces(s: string): (k: nat)
    ensures k <= |s| && forall i :: |s| - k <= i < |s| ==> IsSpace(s[i])
    ensures k < |s| ==> !IsSpace(s[|s| - k - 1])
  {
    if |s| == 0 || !IsSpace(s[|s| - 1]) then 0 else TrailingSpaces(s[..|s| - 1]) + 1
  }

  datatype Numbered = Numbered(base: string, number: nat)

  /**
   * The match of `^(.+?)\s*\((\d+)\)$` on a name: a "(digits)" suffix
   * after at least one character; the lazy group stops where the
   * whitespace before "(" starts (but keeps one character), and must not
   * hold a newline, which `.` does not match. The base is that group stripped.
   */
  function CopySuffix(name: string): (r: Option<Numbered>)
    ensures r.Some? ==> '(' in name && ')' in name
  {
    var t := Anchored(name);
    if |t| == 0 || t[|t| - 1] != ')' then None
    else
      var u := t[..|t| - 1];
      var k := TrailingDigits(u);
      if k == 0 || k == |u| || u[|u| - k - 1] != '(' then None
      else
        var p := |u| - k - 1;
        if p == 0 then None
        else
          assert t[|t| - 1] == name[|t| - 1] && u[p] == name[p];
          var digits := t[p + 1..|t| - 1];
          assert AllDigits(digits) by {
            forall i | 0 <= i < |digits| ensures IsDigit(digits[i]) {
              assert digits[i] == u[p + 1 + i];
            }
          }
          GroupBefore(t, p)
  }

  /** The rest of the match once "(" is at p and digits run from p + 1 up to the final ")". */
  function GroupBefore(t: string, p: nat): (r: Option<Numbered>)
    requires 0 < p < |t| - 1 && AllDigits(t[p + 1..|t| - 1])
  {
    var q := if p - TrailingSpaces(t[..p]) < 1 then 1 else p - TrailingSpaces(t[..p]);
    if '\n' in t[..q] then None
    else Some(Numbered(Strip(t[..q]), DigitsValue(t[p + 1..|t| - 1])))
  }

  /** The candidate name for number i. */
  function Candidate(base: string, i: nat): string
  {
    base + " (" + NatToString(i) + ")"
  }

  /** A candidate parses back to its base and number, for a base that is stripped, non-empty and on one line. */
  lemma CandidateSuffix(base: string, i: nat)
    requires base != "" && Strip(base) == base && '\n' !in base
    ensures CopySuffix(Candidate(base, i)) == Some(Numbered(base, i))
  {
    Text.DigitsValueOfNat(i);
    SuffixOf(base, NatToString(i));
  }

  /** "base (digits)" matches with that base and the digits' value. */
  lemma SuffixOf(base: string, d: string)
    requires base != "" && Strip(base) == base && '\n' !in base
    requires d != "" && AllDigits(d)
    ensures CopySuffix(base + " (" + d + ")") == Some(Numbered(base, DigitsValue(d)))
  {
    var name := base + " (" + d + ")";
    var u := base + " (" + d;
    assert name == u + ")";
    assert name[..|name| - 1] == u;
    TrailingDigitsOf(base + " (", d);
    var p := |base| + 1;
    assert u[p] == '(';
    assert name[..p] == base + " ";
    assert base[|base| - 1] == Strip(base)[|base| - 1];
    TrailingSpacesOne(base);
    assert name[..p - 1] == base;
    assert name[p + 1..|name| - 1] == d;
    CopySuffixAt(name, p);
  }

  /** The regex matches with the "(" at position p when one space precedes it and digits follow it. */
  lemma CopySuffixAt(name: string, p: nat)
    requires 2 <= p && p + 3 <= |name| && name[|name| - 1] == ')' && name[p] == '('
    requires TrailingDigits(name[..|name| - 1]) == |name| - p - 2
    requires TrailingSpaces(name[..p]) == 1 && '\n' !in name[..p - 1]
    ensures CopySuffix(name) == Some(Numbered(Strip(name[..p - 1]), DigitsValue(name[p + 1..|name| - 1])))
  {
    assert Anchored(name) == name;
    CopySuffixReaches(name, p);
    GroupBeforeSpace(name, p);
  }

  /** One space before "(" leaves the group everything before that space. */
  lemma GroupBeforeSpace(t: string, p: nat)
    requires 2 <= p < |t| - 1 && AllDigits(t[p + 1..|t| - 1])
    requires TrailingSpaces(t[..p]) == 1 && '\n' !in t[..p - 1]
    ensures GroupBefore(t, p) == Some(Numbered(Strip(t[..p - 1]), DigitsValue(t[p + 1..|t| - 1])))
  {
  }

  /** With "(" at p and digits up to the final ")", the match goes on to GroupBefore at p. */
  lemma CopySuffixReaches(name: string, p: nat)
    requires 2 <= p && p + 3 <= |name| && name[|name| - 1] == ')' && name[p] == '('
    requires TrailingDigits(name[..|name| - 1]) == |name| - p - 2
    requires Anchored(name) == name
    ensures AllDigits(name[p + 1..|name| - 1]) && CopySuffix(name) == GroupBefore(name, p)
  {
    var u := name[..|name| - 1];
    var k := TrailingDigits(u);
    assert k == |u| - p - 1 && u[|u| - k - 1] == '(';
    var digits := name[p + 1..|name| - 1];
    forall i | 0 <= i < |digits| ensures IsDigit(digits[i]) {
      assert digits[i] == u[p + 1 + i];
    }
  }

  /** The digit run at the end of a text that ends in digits after a non-digit is exactly those digits. */
  lemma {:induction false} TrailingDigitsOf(a: string, d: string)
    requires |a| > 0 && !IsDigit(a[|a| - 1]) && AllDigits(d)
    ensures TrailingDigits(a + d) == |d|
    decreases |d|
  {
    if |d| > 0 {
      assert (a + d)[..|a + d| - 1] == a + d[..|d| - 1];
      TrailingDigitsOf(a, d[..|d| - 1]);
    } else {
      assert a + d == a;
    }
  }

  lemma TrailingSpacesOne(base: string)
    requires |base| > 0 && !IsSpace(base[|base| - 1])
    ensures TrailingSpaces(base + " ") == 1
  {
    assert (base + " ")[..|base|] == base;
  }

  /** The first candidate from number i on that no project has, or "base (copy)" once the numbers reach 1000. */
  function FirstFree(base: string, i: nat, existing: set<string>): string
    decreases 1000 - i
  {
    if i >= 1000 then base + " (copy)"
    else if Candidate(base, i) !in existing then Candidate(base, i)
    else FirstFree(base, i + 1, existing)
  }

  /** The name chosen is unused and the lowest free number, or the fallback once every number up to 999 is taken. */
  predicate LowestFree(r: string, base: string, i: nat, existing: set<string>)
  {
    || (r == base + " (copy)" && forall m :: i <= m < 1000 ==> Candidate(base, m) in existing)
    || (exists j :: i <= j < 1000 && r == Candidate(base, j) && r !in existing &&
                  forall m :: i <= m < j ==> Candidate(base, m) in existing)
  }

  lemma {:induction false} FirstFreeIsLowest(base: string, i: nat, existing: set<string>)
    ensures LowestFree(FirstFree(base, i, existing), base, i, existing)
    decreases 1000 - i
  {
    if i < 1000 && Candidate(base, i) in existing {
      FirstFreeIsLowest(base, i + 1, existing);
      var r := FirstFree(base, i + 1, existing);
      if j :| i + 1 <= j < 1000 && r == Candidate(base, j) && r !in existing &&
              forall m :: i + 1 <= m < j ==> Candidate(base, m) in existing {
        assert i <= j;
      }
    }
  }

  /** The base and first number a copy name starts from: one past an existing "(N)" suffix, else 1. */
  function CopyStart(name: string): (Numbered)
  {
    match CopySuffix(name)
    case Some(nb) => Numbered(nb.base, nb.number + 1)
    case None => Numbered(name, 1)
  }

  /** generate_copy_name, given the names of the existing projects. */
  method GenerateCopyName(originalName: string, existing: set<string>) returns (name: string)
    ensures var s := CopyStart(originalName); name == FirstFree(s.base, s.number, existing)
    ensures var s := CopyStart(originalName); LowestFree(name, s.base, s.number, existing)
  {
    var start := CopyStart(originalName);
    FirstFreeIsLowest(start.base, start.number, existing);
    var i := start.number;
    while i < 1000
      invariant FirstFree(start.base, start.number, existing) == FirstFree(start.base, i, existing)
    {
      var candidate := Candidate(start.base, i);
      if candidate !in existing {
        return candidate;
      }
      i := i + 1;
    }
    return start.base + " (copy)";
  }

  /** Duplicating a copy moves its number on: "base (N)" starts from N + 1 with the same base. */
  lemma CopyOfCopy(base: string, n: nat)
    requires base != "" && Strip(base) == base && '\n' !in base
    ensures CopyStart(Candidate(base, n)) == Numbered(base, n + 1)
  {
    CandidateSuffix(base, n);
  }

  // ---------------------------------------------------------------------
  // Duplication
  // ---------------------------------------------------------------------

  /** The ids of the steps a duplicate keeps: up to and including the first step with the given id, or all. */
  function IncludedIds(steps: seq<PipelineStep>, until: Option<string>): (r: Result<set<string>, HttpError>)
    ensures until.Some? && until.value != "" && !HasId(steps, until.value) ==>
      r == Err(HttpError(400, "Step not found: " + until.value))
    ensures r.Ok? ==> forall id :: id in r.value ==> HasId(steps, id)
    ensures (until.None? || until.value == "") ==> r.Ok? && forall id :: id in r.value <==> HasId(steps, id)
  {
    if until.Some? && until.value != "" then
      match IndexOfId(steps, until.value)
      case None => Err(HttpError(400, "Step not found: " + until.value))
      case Some(i) => Ok(set k | 0 <= k <= i :: steps[k].id)
    else Ok(set k | 0 <= k < |steps| :: steps[k].id)
  }

  /** The duplicate's steps: those whose id was included, in order. */
  function KeptSteps(steps: seq<PipelineStep>, included: set<string>): seq<PipelineStep>
  {
    Perm.Filter((s: PipelineStep) => s.id in included, steps)
  }

  /** The final output survives only when its step does. */
  function KeptFinal(finalOutput: Option<FinalOutput>, included: set<string>): (r: Option<FinalOutput>)
    ensures r.Some? <==> finalOutput.Some? && finalOutput.value.step in included
    ensures r.Some? ==> r == finalOutput
  {
    if finalOutput.Some? && finalOutput.value.step in included then finalOutput else None
  }

  /** Keeping the steps up to an id that names a step keeps exactly that prefix when ids are distinct. */
  lemma {:induction false} KeptPrefix(steps: seq<PipelineStep>, until: string)
    requires DistinctIds(steps) && until != "" && HasId(steps, until)
    ensures var i := IndexOfId(steps, until).value;
      KeptSteps(steps, IncludedIds(steps, Some(until)).value) == steps[..i + 1]
  {
    var i := IndexOfId(steps, until).value;
    var included := IncludedIds(steps, Some(until)).value;
    assert included == set k | 0 <= k <= i :: steps[k].id;
    forall k | 0 <= k < |steps| ensures steps[k].id in included <==> k <= i {
      if steps[k].id in included {
        var m :| 0 <= m <= i && steps[m].id == steps[k].id;
        assert m == k;
      }
    }
    KeptByPosition(steps, included, i + 1, |steps|);
    assert steps[..|steps|] == steps;
  }

  /** Filtering by a set that holds exactly the ids of the first c steps keeps the first c steps. */
  lemma {:induction false} KeptByPosition(steps: seq<PipelineStep>, included: set<string>, c: nat, n: nat)
    requires c <= |steps| && n <= |steps|
    requires forall k :: 0 <= k < |steps| ==> (steps[k].id in included <==> k < c)
    ensures KeptSteps(steps[..n], included) == steps[..if n < c then n else c]
    decreases n
  {
    if n > 0 {
      KeptByPosition(steps, included, c, n - 1);
      Perm.FilterSnoc((s: PipelineStep) => s.id in included, steps, n - 1);
      if n <= c {
        assert steps[..n] == steps[..n - 1] + [steps[n - 1]];
      }
    }
  }

  /** Keeping every step keeps the pipeline as it is. */
  lemma {:induction false} KeptAll(steps: seq<PipelineStep>, n: nat)
    requires n <= |steps|
    ensures KeptSteps(steps[..n], IncludedIds(steps, None).value) == steps[..n]
    decreases n
  {
    if n > 0 {
      KeptAll(steps, n - 1);
      Perm.FilterSnoc((s: PipelineStep) => s.id in IncludedIds(steps, None).value, steps, n - 1);
      assert steps[..n] == steps[..n - 1] + [steps[n - 1]];
    }
  }

  datatype ProjectData = ProjectData(id: string, name: string, description: string, createdAt: string,
                                     updatedAt: string, sourceIds: seq<string>)

  datatype Duplicate = Duplicate(project: ProjectData, steps: seq<PipelineStep>, finalOutput: Option<FinalOutput>)

  /**
   * duplicate_project once the source project and its pipeline are loaded:
   * 400 for an unknown cut-off step; otherwise the new project (the given
   * name or a generated copy name, the same description and import
   * sources) with the kept steps and final output.
   */
  method DuplicateProject(source: ProjectData, steps: seq<PipelineStep>, finalOutput: Option<FinalOutput>,
                          newName: Option<string>, until: Option<string>, existing: set<string>, newId: string, now: string)
    returns (r: Result<Duplicate, HttpError>)
    ensures IncludedIds(steps, until).Err? ==> r == Err(IncludedIds(steps, until).error)
    ensures IncludedIds(steps, until).Ok? ==> r.Ok?
    ensures IncludedIds(steps, until).Ok? && r.Ok? ==>
      var included := IncludedIds(steps, until).value;
      && r.value.steps == KeptSteps(steps, included)
      && r.value.finalOutput == KeptFinal(finalOutput, included)
      && r.value.project.id == newId && r.value.project.createdAt == now && r.value.project.updatedAt == now
      && r.value.project.description == source.description && r.value.project.sourceIds == source.sourceIds
      && (newName.Some? && newName.value != "" ==> r.value.project.name == newName.value)
      && (newName.None? || newName.value == "" ==>
            var s := CopyStart(source.name); r.value.project.name == FirstFree(s.base, s.number, existing))
  {
    var includedIds := IncludedIds(steps, until);
    if includedIds.Err? {
      return Err(includedIds.error);
    }
    var included := includedIds.value;
    var name: string;
    if newName.Some? && newName.value != "" {
      name := newName.value;
    } else {
      name := GenerateCopyName(source.name, existing);
    }
    var project := ProjectData(newId, name, source.description, now, now, source.sourceIds);
    return Ok(Duplicate(project, KeptSteps(steps, included), KeptFinal(finalOutput, included)));
  }

  // ---------------------------------------------------------------------
  // Project metadata and import sources
  // ---------------------------------------------------------------------

  /** `list.remove(x)`: the first occurrence of x taken out. */
  function RemoveFirst(s: seq<string>, x: string): (r: seq<string>)
    requires x in s
    ensures |r| == |s| - 1
    ensures forall y :: y in r ==> y in s
  {
    if s[0] == x then s[1..]
    else
      assert x in s[1..] by { var k :| 0 <= k < |s| && s[k] == x; assert s[1..][k - 1] == x; }
      [s[0]] + RemoveFirst(s[1..], x)
  }

  /** Without repeats, removing x leaves no x, no repeats, and every other element. */
  lemma {:induction false} RemoveFirstDistinct(s: seq<string>, x: string)
    requires x in s && Perm.Distinct(s)
    ensures x !in RemoveFirst(s, x) && Perm.Distinct(RemoveFirst(s, x))
    ensures forall y :: y in RemoveFirst(s, x) <==> y in s && y != x
    decreases |s|
  {
    var t := s[1..];
    assert s == [s[0]] + t;
    assert Perm.Distinct(t);
    assert s[0] !in t by {
      forall k | 0 <= k < |t| ensures t[k] != s[0] { assert t[k] == s[k + 1]; }
    }
    if s[0] != x {
      RemoveFirstDistinct(t, x);
      var r := RemoveFirst(t, x);
      var full := [s[0]] + r;
      forall p, q | 0 <= p < q < |full| ensures full[p] != full[q] {
        if p == 0 {
          assert full[q] == r[q - 1] && r[q - 1] in r;
        } else {
          assert full[p] == r[p - 1] && full[q] == r[q - 1];
        }
      }
    }
  }

  const HasStepsDetail: string := "Cannot remove import: project has steps. Delete steps first or delete the project."

  /** A loaded project.json. */
  class Project {
    var id: string
    var name: string
    var description: string
    var createdAt: string
    var updatedAt: string
    var sourceIds: seq<string>

    /** create_project: a new project stamped with `now`, drawing on no imports. */
    constructor Create(id: string, name: string, description: string, now: string)
      ensures this.id == id && this.name == name && this.description == description
      ensures createdAt == now && updatedAt == now && sourceIds == []
    {
      this.id := id;
      this.name := name;
      this.description := description;
      createdAt := now;
      updatedAt := now;
      sourceIds := [];
    }

    /** update_project: the given fields replace the old ones, and the project is stamped. */
    method Update(newName: Option<string>, newDescription: Option<string>, now: string)
      modifies this
      ensures name == newName.GetOr(old(name)) && description == newDescription.GetOr(old(description))
      ensures updatedAt == now
      ensures id == old(id) && createdAt == old(createdAt) && sourceIds == old(sourceIds)
    {
      if newName.Some? {
        name := newName.value;
      }
      if newDescription.Some? {
        description := newDescription.value;
      }
      updatedAt := now;
    }

    /** add_import_source: 404 for an import that does not exist; a new id is appended, a known one changes nothing. */
    method AddImportSource(importExists: bool, importId: string, now: string) returns (r: Result<seq<string>, HttpError>)
      modifies this
      ensures !importExists ==> r == Err(HttpError(404, "Import not found: " + importId)) && sourceIds == old(sourceIds)
      ensures importExists ==> r == Ok(sourceIds) && importId in sourceIds
      ensures importExists && importId !in old(sourceIds) ==> sourceIds == old(sourceIds) + [importId] && updatedAt == now
      ensures importExists && importId in old(sourceIds) ==> sourceIds == old(sourceIds) && updatedAt == old(updatedAt)
      ensures r.Err? ==> updatedAt == old(updatedAt)
      ensures Perm.Distinct(old(sourceIds)) ==> Perm.Distinct(sourceIds)
      ensures id == old(id) && name == old(name) && description == old(description) && createdAt == old(createdAt)
    {
      if !importExists {
        return Err(HttpError(404, "Import not found: " + importId));
      }
      if importId !in sourceIds {
        sourceIds := sourceIds + [importId];
        updatedAt := now;
      }
      return Ok(sourceIds);
    }

    /** remove_import_source: 409 while the project has steps; otherwise the first occurrence of the id is removed. */
    method RemoveImportSource(hasSteps: bool, importId: string, now: string) returns (r: Result<seq<string>, HttpError>)
      modifies this
      ensures hasSteps ==> r == Err(HttpError(409, HasStepsDetail)) && sourceIds == old(sourceIds) && updatedAt == old(updatedAt)
      ensures !hasSteps ==> r == Ok(sourceIds)
      ensures !hasSteps && importId in old(sourceIds) ==> sourceIds == RemoveFirst(old(sourceIds), importId) && updatedAt == now
      ensures !hasSteps && importId !in old(sourceIds) ==> sourceIds == old(sourceIds) && updatedAt == old(updatedAt)
      ensures id == old(id) && name == old(name) && description == old(description) && createdAt == old(createdAt)
    {
      if hasSteps {
        return Err(HttpError(409, HasStepsDetail));
      }
      if importId in sourceIds {
        sourceIds := RemoveFirst(sourceIds, importId);
        updatedAt := now;
      }
      return Ok(sourceIds);
    }
  }
}
