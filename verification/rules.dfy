/**
 * The screening-rules router (app/backend/routers/rules.py).
 *
 * Rule files live in one directory; the model sees that directory as the
 * sequence of the stems of its `.md` files in the order the directory
 * listing yields them, or None when the directory is absent, and as a map
 * from file name to content when a rule is read.
 */
module Rules {
  import opened Wrappers
  import opened Text

  // ------------------------------------------------------------------
  // Version numbering: get_next_filename
  // ------------------------------------------------------------------

  /** A match of `^(.+?)_v(\d+)` on a stem: the base before `_v` and the number after it. */
  datatype RuleVersion = RuleVersion(base: string, version: nat)

  /** `_v` followed by a digit sits at position i of the stem. */
  predicate MarkAt(stem: string, i: nat)
  {
    i + 2 < |stem| && stem[i] == '_' && stem[i + 1] == 'v' && IsDigit(stem[i + 2])
  }

  /** The first mark at or after i, as long as no newline (which `.` does not cross) comes first. */
  function MarkFrom(stem: string, i: nat): (r: Option<nat>)
    ensures r.Some? ==> i <= r.value && MarkAt(stem, r.value) && '\n' !in stem[i..r.value]
    ensures r.Some? ==> forall j :: i <= j < r.value ==> !MarkAt(stem, j)
    ensures r.None? ==> forall j :: i <= j && MarkAt(stem, j) ==> '\n' in stem[i..j]
    decreases |stem| - i
  {
    if i + 2 >= |stem| then None
    else if MarkAt(stem, i) then Some(i)
    else if stem[i] == '\n' then None
    else
      var r := MarkFrom(stem, i + 1);
      assert forall j :: i < j <= |stem| ==> stem[i..j] == [stem[i]] + stem[i + 1..j];
      r
  }

  /** The longest run of digits at the start of s. */
  function DigitRun(s: string): (r: string)
    ensures r <= s && AllDigits(r)
    ensures |r| < |s| ==> !IsDigit(s[|r|])
  {
    if |s| == 0 || !IsDigit(s[0]) then "" else [s[0]] + DigitRun(s[1..])
  }

  /**
   * version_pattern.match(stem): the shortest non-empty base without a
   * newline that is followed by `_v` and a digit, and the value of the
   * whole digit run there.
   */
  function VersionMatch(stem: string): (r: Option<RuleVersion>)
    ensures r.Some? <==> exists i :: 1 <= i && MarkAt(stem, i) && '\n' !in stem[..i]
    ensures r.Some? ==>
      var n := |r.value.base|;
      && 1 <= n && MarkAt(stem, n) && '\n' !in r.value.base && r.value.base == stem[..n]
      && (forall j :: 1 <= j < n ==> !MarkAt(stem, j))
      && r.value.version == DigitsValue(DigitRun(stem[n + 2..]))
  {
    if |stem| == 0 || stem[0] == '\n' then
      assert forall i :: 1 <= i <= |stem| ==> stem[..i][0] == '\n';
      None
    else
      match MarkFrom(stem, 1)
      case None =>
        assert forall j :: 1 <= j <= |stem| ==> stem[..j] == [stem[0]] + stem[1..j];
        None
      case Some(i) =>
        assert stem[..i] == [stem[0]] + stem[1..i];
        var digits := DigitRun(stem[i + 2..]);
        Some(RuleVersion(stem[..i], DigitsValue(digits)))
  }

  /** The largest version that `matcher` finds among the stems, 0 when it finds none. */
  function MaxMatched(matcher: string -> Option<RuleVersion>, stems: seq<string>): nat
  {
    if |stems| == 0 then 0
    else
      var m := MaxMatched(matcher, stems[..|stems| - 1]);
      match matcher(stems[|stems| - 1])
      case None => m
      case Some(v) => if v.version > m then v.version else m
  }

  /** The largest version among the matching stems, 0 when none matches. */
  function MaxVersion(stems: seq<string>): nat
  {
    MaxMatched(VersionMatch, stems)
  }

  /** The base of the last matching stem, `rules` when none matches. */
  function LastBase(stems: seq<string>): string
  {
    if |stems| == 0 then "rules"
    else
      match VersionMatch(stems[|stems| - 1])
      case None => LastBase(stems[..|stems| - 1])
      case Some(v) => v.base
  }

  lemma {:induction false} MaxMatchedIsMax(matcher: string -> Option<RuleVersion>, stems: seq<string>)
    ensures forall k :: 0 <= k < |stems| && matcher(stems[k]).Some? ==> matcher(stems[k]).value.version <= MaxMatched(matcher, stems)
    ensures MaxMatched(matcher, stems) > 0 ==> exists k :: 0 <= k < |stems| && matcher(stems[k]).Some? && matcher(stems[k]).value.version == MaxMatched(matcher, stems)
  {
    if |stems| > 0 {
      var n := |stems| - 1;
      MaxMatchedIsMax(matcher, stems[..n]);
      assert forall k :: 0 <= k < n ==> stems[..n][k] == stems[k];
    }
  }

  /** MaxVersion is the maximum: at least every matched version, and one of them unless it is 0. */
  lemma MaxVersionIsMax(stems: seq<string>)
    ensures forall k :: 0 <= k < |stems| && VersionMatch(stems[k]).Some? ==> VersionMatch(stems[k]).value.version <= MaxVersion(stems)
    ensures MaxVersion(stems) > 0 ==> exists k :: 0 <= k < |stems| && VersionMatch(stems[k]).Some? && VersionMatch(stems[k]).value.version == MaxVersion(stems)
  {
    MaxMatchedIsMax(VersionMatch, stems);
  }

  /** With no matching stem the suggestion is version 1 of `rules`. */
  lemma {:induction false} NoMatchDefaults(stems: seq<string>)
    requires forall k :: 0 <= k < |stems| ==> VersionMatch(stems[k]).None?
    ensures MaxVersion(stems) == 0 && LastBase(stems) == "rules"
  {
    if |stems| > 0 {
      NoMatchDefaults(stems[..|stems| - 1]);
      assert MaxMatched(VersionMatch, stems) == MaxMatched(VersionMatch, stems[..|stems| - 1]);
    }
  }

  /** The suggested file name for a base and version. */
  function RuleFileName(base: string, version: nat): string
  {
    base + "_v" + NatToString(version) + ".md"
  }

  /**
   * get_next_filename: `rules_v1.md` when the directory is absent, else the
   * base of the last matching stem and one more than the largest version.
   */
  method GetNextFilename(stems: Option<seq<string>>) returns (suggested: string)
    ensures stems.None? ==> suggested == "rules_v1.md"
    ensures stems.Some? ==> suggested == RuleFileName(LastBase(stems.value), MaxVersion(stems.value) + 1)
  {
    if stems.None? {
      return "rules_v1.md";
    }
    var files := stems.value;
    var maxVersion := 0;
    var baseName := "rules";
    for k := 0 to |files|
      invariant maxVersion == MaxVersion(files[..k])
      invariant baseName == LastBase(files[..k])
    {
      assert files[..k + 1][..k] == files[..k];
      match VersionMatch(files[k])
      case None =>
      case Some(v) =>
        baseName := v.base;
        if v.version > maxVersion {
          maxVersion := v.version;
        }
    }
    assert files[..|files|] == files;
    suggested := RuleFileName(baseName, maxVersion + 1);
  }

  // ------------------------------------------------------------------
  // Reading and creating rules
  // ------------------------------------------------------------------

  datatype RuleContent = RuleContent(id: string, filename: string, content: string)

  /** A character `[\w\-_.]` keeps; every other becomes `_`. */
  predicate RuleNameChar(c: char) { IsWordChar(c) || c == '-' || c == '.' }

  function SanitizeRuleName(name: string): (r: string)
    ensures |r| == |name|
    ensures forall i :: 0 <= i < |r| ==> r[i] == (if RuleNameChar(name[i]) then name[i] else '_')
  {
    if |name| == 0 then "" else [if RuleNameChar(name[0]) then name[0] else '_'] + SanitizeRuleName(name[1..])
  }

  /** A name made of allowed characters only is left as it is. */
  lemma SanitizeAllowed(name: string)
    requires forall i :: 0 <= i < |name| ==> RuleNameChar(name[i])
    ensures SanitizeRuleName(name) == name
  {
    var r := SanitizeRuleName(name);
    assert forall i :: 0 <= i < |name| ==> r[i] == name[i];
  }

  lemma SanitizeKeepsMd(name: string)
    requires EndsWith(name, ".md")
    ensures EndsWith(SanitizeRuleName(name), ".md")
  {
    var r := SanitizeRuleName(name);
    var n := |name|;
    assert r[n - 3] == '.' && r[n - 2] == 'm' && r[n - 1] == 'd' by {
      assert name[n - 3..][0] == name[n - 3];
      assert name[n - 3..][1] == name[n - 2];
      assert name[n - 3..][2] == name[n - 1];
    }
    assert r[n - 3..] == ".md";
  }

  /** Sanitising keeps a `.md` ending, leaves only allowed characters, and changes nothing the second time. */
  lemma SanitizeRuleNameFacts(name: string)
    ensures EndsWith(name, ".md") ==> EndsWith(SanitizeRuleName(name), ".md")
    ensures forall i :: 0 <= i < |name| ==> RuleNameChar(SanitizeRuleName(name)[i])
    ensures SanitizeRuleName(SanitizeRuleName(name)) == SanitizeRuleName(name)
  {
    var r := SanitizeRuleName(name);
    if EndsWith(name, ".md") {
      SanitizeKeepsMd(name);
    }
    assert forall i :: 0 <= i < |r| ==> RuleNameChar(r[i]);
    SanitizeAllowed(r);
  }

  /** Path(name).stem for a name ending in `.md`: the name without it, unless nothing would be left before the dot. */
  function MdStem(name: string): string
    requires EndsWith(name, ".md")
  {
    if |name| > 3 then name[..|name| - 3] else name
  }

  /**
   * create_rule given the names of the files already present: 400 unless
   * the requested name ends in `.md`, 409 when its sanitised form exists,
   * otherwise the new rule under the sanitised name.
   */
  function CreateRule(filename: string, content: string, existing: set<string>): (r: Result<RuleContent, HttpError>)
    ensures !EndsWith(filename, ".md") <==> r.Err? && r.error.status == 400
    ensures r.Err? && r.error.status == 409 <==> EndsWith(filename, ".md") && SanitizeRuleName(filename) in existing
    ensures r.Ok? ==>
      && r.value.filename == SanitizeRuleName(filename)
      && EndsWith(r.value.filename, ".md")
      && r.value.filename !in existing
      && r.value.content == content
  {
    if !EndsWith(filename, ".md") then Err(HttpError(400, "Filename must end with .md"))
    else
      var safe := SanitizeRuleName(filename);
      SanitizeRuleNameFacts(filename);
      if safe in existing then Err(HttpError(409, "Rule already exists: " + safe))
      else Ok(RuleContent(MdStem(safe), safe, content))
  }

  /** get_rule over the rule files by name: 404 when `<id>.md` is absent, else its content. */
  function GetRule(ruleId: string, files: map<string, string>): (r: Result<RuleContent, HttpError>)
    ensures r.Err? <==> ruleId + ".md" !in files
    ensures r.Err? ==> r.error.status == 404
    ensures r.Ok? ==> r.value == RuleContent(ruleId, ruleId + ".md", files[ruleId + ".md"])
  {
    var name := ruleId + ".md";
    if name !in files then Err(HttpError(404, "Rule not found: " + ruleId))
    else Ok(RuleContent(ruleId, name, files[name]))
  }

  /** A rule just created is read back under its id, with the content it was created with. */
  lemma CreateThenGet(filename: string, content: string, files: map<string, string>)
    requires CreateRule(filename, content, files.Keys).Ok?
    ensures var created := CreateRule(filename, content, files.Keys).value;
      |created.filename| > 3 ==>
        GetRule(created.id, files[created.filename := content]) == Ok(created)
  {
    var created := CreateRule(filename, content, files.Keys).value;
    var safe := created.filename;
    if |safe| > 3 {
      assert created.id + ".md" == safe by {
        assert safe == safe[..|safe| - 3] + safe[|safe| - 3..];
      }
    }
  }
}
