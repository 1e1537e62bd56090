/**
 * Shared helpers of the deduplication steps: title normalisation, the
 * completeness score, year parsing, database-name normalisation and
 * inference, the database priority list, and the choice of a cluster's
 * representative. Clustering itself lives in DedupCluster.
 *
 * Characters are ASCII: `.lower()` and the `[^a-z0-9]` class are read on
 * ASCII letters and digits only.
 */
module DedupUtils {
  import opened Wrappers
  import opened Text
  import opened Bib
  import PdfLibrary

  // ------------------------------------------------------------------
  // normalize_title
  // ------------------------------------------------------------------

  /** The characters the class `[a-z0-9]` matches. */
  predicate IsTitleChar(c: char) { IsLowerAlpha(c) || IsDigit(c) }

  /** Text made only of `a-z`, `0-9` and spaces. */
  predicate TitleText(s: string) { forall i :: 0 <= i < |s| ==> IsTitleChar(s[i]) || s[i] == ' ' }

  /** Length of the leading run of characters outside `[a-z0-9]`. */
  function OtherRun(s: string): (n: nat)
    ensures n <= |s|
    ensures forall i :: 0 <= i < n ==> !IsTitleChar(s[i])
    ensures n < |s| ==> IsTitleChar(s[n])
  {
    if |s| == 0 || IsTitleChar(s[0]) then 0 else 1 + OtherRun(s[1..])
  }

  /** re.sub(r"[^a-z0-9]+", " ", s): every maximal run of other characters becomes one space. */
  function SquashOthers(s: string): (r: string)
    ensures TitleText(r)
    decreases |s|
  {
    if |s| == 0 then ""
    else if IsTitleChar(s[0]) then [s[0]] + SquashOthers(s[1..])
    else
      var n := OtherRun(s);
      " " + SquashOthers(s[n..])
  }

  /** No two spaces in a row. */
  predicate SingleSpaced(s: string) { forall i :: 0 <= i < |s| - 1 ==> !(s[i] == ' ' && s[i + 1] == ' ') }

  /** Text already of the substituted form is left alone by the substitution. */
  lemma {:induction false} SquashFixed(s: string)
    requires TitleText(s) && SingleSpaced(s)
    ensures SquashOthers(s) == s
    decreases |s|
  {
    if |s| > 0 {
      assert TitleText(s[1..]) && SingleSpaced(s[1..]) by {
        assert forall i :: 0 <= i < |s| - 1 ==> s[1..][i] == s[i + 1];
      }
      SquashFixed(s[1..]);
      if !IsTitleChar(s[0]) {
        assert OtherRun(s) == 1 by {
          if |s| > 1 { assert s[1] != ' '; }
        }
      }
    }
  }

  /** title.replace("{", "").replace("}", "") */
  function Unbraced(title: string): (r: string)
    ensures '{' !in r && '}' !in r
  {
    var r := RemoveChar(RemoveChar(title, '{'), '}');
    assert '{' !in r by {
      if '{' in r { RemoveCharKeeps(RemoveChar(title, '{'), '}', '{'); }
    }
    r
  }

  /** Python normalize_title. */
  function NormalizeTitle(title: string): (r: string)
    ensures title == "" ==> r == ""
    ensures TitleText(r) && Collapsed(r)
  {
    if title == "" then ""
    else
      var squashed := SquashOthers(LowerStr(Unbraced(title)));
      var r := CollapseSpaces(squashed);
      CollapseTitleText(squashed);
      r
  }

  /** Collapsing whitespace keeps text in `[a-z0-9 ]`. */
  lemma CollapseTitleText(s: string)
    requires TitleText(s)
    ensures TitleText(CollapseSpaces(s))
  {
    var r := CollapseSpaces(s);
    forall i | 0 <= i < |r| ensures IsTitleChar(r[i]) || r[i] == ' ' {
      var c := r[i];
      if c != ' ' && c !in s {
        CollapseSpacesAvoid(s, c);
      }
    }
  }

  /** normalize_title is idempotent: a normalised title normalises to itself. */
  lemma NormalizeTitleIdempotent(title: string)
    ensures NormalizeTitle(NormalizeTitle(title)) == NormalizeTitle(title)
  {
    var r := NormalizeTitle(title);
    if r != "" {
      assert '{' !in r && '}' !in r by {
        forall i | 0 <= i < |r| ensures r[i] != '{' && r[i] != '}' { assert IsTitleChar(r[i]) || r[i] == ' '; }
      }
      assert NoUpper(r) by {
        forall i | 0 <= i < |r| ensures !IsUpperAlpha(r[i]) { assert IsTitleChar(r[i]) || r[i] == ' '; }
      }
      LowerStrNoUpperId(r);
      SquashFixed(r);
      CollapsedFixed(r);
    }
  }

  /** The case of the letters of a title does not matter. */
  lemma NormalizeTitleIgnoresCase(title: string)
    ensures NormalizeTitle(UpperStr(title)) == NormalizeTitle(title)
  {
    RemoveCharUpper(title, '{');
    RemoveCharUpper(RemoveChar(title, '{'), '}');
    LowerStrUpperStr(Unbraced(title));
  }

  /** BibTeX protective braces around a title do not matter. */
  lemma NormalizeTitleIgnoresBraces(title: string)
    requires title != ""
    ensures NormalizeTitle("{" + title + "}") == NormalizeTitle(title)
  {
    UnbracedWrapped(title);
  }

  lemma UnbracedWrapped(title: string)
    ensures Unbraced("{" + title + "}") == Unbraced(title)
  {
    RemoveCharConcat("{", title + "}", '{');
    RemoveCharConcat(title, "}", '{');
    RemoveCharConcat(RemoveChar(title, '{'), "}", '}');
    assert "{" + title + "}" == "{" + (title + "}");
  }

  lemma {:induction false} RemoveCharConcat(a: string, b: string, c: char)
    ensures RemoveChar(a + b, c) == RemoveChar(a, c) + RemoveChar(b, c)
    decreases |a|
  {
    if |a| > 0 {
      assert (a + b)[0] == a[0];
      assert (a + b)[1..] == a[1..] + b;
      RemoveCharConcat(a[1..], b, c);
    } else {
      assert a + b == b;
    }
  }

  // ------------------------------------------------------------------
  // completeness_score and parse_year
  // ------------------------------------------------------------------

  /** The fields completeness_score looks at. */
  const CompletenessFields: seq<string> := ["title", "author", "year", "abstract", "doi", "journal", "booktitle"]

  /** How many of the named fields are non-empty in e. */
  function CountPresent(e: Entry, fields: seq<string>): (n: nat)
    ensures n <= |fields|
  {
    if |fields| == 0 then 0
    else (if Field(e, fields[0]) != "" then 1 else 0) + CountPresent(e, fields[1..])
  }

  /** The count is full exactly when every field is present, and zero exactly when none is. */
  lemma {:induction false} CountPresentBounds(e: Entry, fields: seq<string>)
    ensures CountPresent(e, fields) == |fields| <==> forall k :: 0 <= k < |fields| ==> Field(e, fields[k]) != ""
    ensures CountPresent(e, fields) == 0 <==> forall k :: 0 <= k < |fields| ==> Field(e, fields[k]) == ""
    decreases |fields|
  {
    if |fields| > 0 {
      CountPresentBounds(e, fields[1..]);
      assert forall k :: 1 <= k < |fields| ==> fields[k] == fields[1..][k - 1];
    }
  }

  /** Filling in fields never lowers the count. */
  lemma {:induction false} CountPresentMonotone(e: Entry, f: Entry, fields: seq<string>)
    requires forall k :: 0 <= k < |fields| ==> Field(e, fields[k]) != "" ==> Field(f, fields[k]) != ""
    ensures CountPresent(e, fields) <= CountPresent(f, fields)
    decreases |fields|
  {
    if |fields| > 0 {
      assert forall k :: 1 <= k < |fields| ==> fields[k] == fields[1..][k - 1];
      CountPresentMonotone(e, f, fields[1..]);
    }
  }

  /** Python completeness_score: the number of non-empty fields among the seven. */
  function CompletenessScore(e: Entry): (r: nat)
    ensures r <= 7
  {
    CountPresent(e, CompletenessFields)
  }

  /** The score is 7 exactly for an entry with all seven fields, 0 exactly for one with none. */
  lemma CompletenessScoreExtremes(e: Entry)
    ensures CompletenessScore(e) == 7 <==> forall k :: 0 <= k < 7 ==> Field(e, CompletenessFields[k]) != ""
    ensures CompletenessScore(e) == 0 <==> forall k :: 0 <= k < 7 ==> Field(e, CompletenessFields[k]) == ""
  {
    CountPresentBounds(e, CompletenessFields);
  }

  /** An entry that has every field another has scores at least as high. */
  lemma CompletenessScoreMonotone(e: Entry, f: Entry)
    requires forall name :: name in CompletenessFields && Field(e, name) != "" ==> Field(f, name) != ""
    ensures CompletenessScore(e) <= CompletenessScore(f)
  {
    CountPresentMonotone(e, f, CompletenessFields);
  }

  /** Python parse_year: int() of the stripped year field, 0 when that raises ValueError. */
  function ParseYear(e: Entry): (r: int)
    ensures Strip(Field(e, "year")) == "" ==> r == 0
  {
    match ParseInt(Strip(Field(e, "year")))
    case Some(y) => y
    case None => 0
  }

  /** A year written as digits, with or without surrounding whitespace, parses to its value. */
  lemma ParseYearOfNat(e: Entry, y: nat, pad: string, tail: string)
    requires forall i :: 0 <= i < |pad| ==> IsSpace(pad[i])
    requires forall i :: 0 <= i < |tail| ==> IsSpace(tail[i])
    requires Field(e, "year") == pad + NatToString(y) + tail
    ensures ParseYear(e) == y
  {
    var s := NatToString(y);
    StripAround(pad, s, tail);
    ParseIntOfNat(y);
  }

  /** Strip removes surrounding whitespace from text that starts and ends on a non-space. */
  lemma StripAround(pad: string, s: string, tail: string)
    requires forall i :: 0 <= i < |pad| ==> IsSpace(pad[i])
    requires forall i :: 0 <= i < |tail| ==> IsSpace(tail[i])
    requires |s| > 0 && !IsSpace(s[0]) && !IsSpace(s[|s| - 1])
    ensures Strip(pad + s + tail) == s
  {
    StripIsStartThenEnd(pad + s + tail);
    StripStartPad(pad, s + tail);
    assert pad + s + tail == pad + (s + tail);
    StripEndPad(s, tail);
  }

  lemma {:induction false} StripStartPad(pad: string, s: string)
    requires forall i :: 0 <= i < |pad| ==> IsSpace(pad[i])
    requires |s| > 0 && !IsSpace(s[0])
    ensures StripStart(pad + s, Whitespace) == s
    decreases |pad|
  {
    if |pad| > 0 {
      assert (pad + s)[1..] == pad[1..] + s;
      StripStartPad(pad[1..], s);
    } else {
      assert pad + s == s;
    }
  }

  lemma {:induction false} StripEndPad(s: string, tail: string)
    requires forall i :: 0 <= i < |tail| ==> IsSpace(tail[i])
    requires |s| > 0 && !IsSpace(s[|s| - 1])
    ensures StripEnd(s + tail, Whitespace) == s
    decreases |tail|
  {
    if |tail| > 0 {
      assert (s + tail)[..|s + tail| - 1] == s + tail[..|tail| - 1];
      StripEndPad(s, tail[..|tail| - 1]);
    } else {
      assert s + tail == s;
    }
  }

  /** A stripped year holding anything but digits, `_` and a sign is not a year: 0. */
  lemma ParseYearRejects(e: Entry, i: nat)
    requires i < |Strip(Field(e, "year"))|
    requires var c := Strip(Field(e, "year"))[i]; !IsDigit(c) && c != '_' && c != '+' && c != '-'
    ensures ParseYear(e) == 0
  {
    var t := Strip(Field(e, "year"));
    if t[0] == '-' || t[0] == '+' {
      assert t[1..][i - 1] == t[i];
    }
  }

  // ------------------------------------------------------------------
  // normalize_database_name
  // ------------------------------------------------------------------

  /** re.sub(r"[^a-z0-9]+", "", s): only the characters of `[a-z0-9]` are kept. */
  function Compact(s: string): (r: string)
    ensures forall i :: 0 <= i < |r| ==> IsTitleChar(r[i])
    ensures forall c :: c in r ==> c in s
    ensures (forall i :: 0 <= i < |s| ==> IsTitleChar(s[i])) ==> r == s
  {
    if |s| == 0 then ""
    else if IsTitleChar(s[0]) then [s[0]] + Compact(s[1..])
    else Compact(s[1..])
  }

  /** A kept character survives compaction. */
  lemma {:induction false} CompactKeeps(s: string, i: nat)
    requires i < |s| && IsTitleChar(s[i])
    ensures |Compact(s)| > 0
    decreases i
  {
    if i > 0 && !IsTitleChar(s[0]) {
      CompactKeeps(s[1..], i - 1);
    }
  }

  /** The database names normalize_database_name can map an alias to. */
  const CanonicalNames: set<string> := {"wos", "ieee", "acm", "arxiv", "springer", "scopus", "pubmed", "sciencedirect"}

  /** No alias test of the cascade fires on c. */
  predicate AliasFree(c: string)
  {
    && !Contains(c, "webofscience") && c != "wos"
    && !Contains(c, "ieee") && !Contains(c, "xplore")
    && !Contains(c, "acm") && !Contains(c, "arxiv") && !Contains(c, "springer") && !Contains(c, "scopus")
    && !Contains(c, "pubmed") && !Contains(c, "medline")
    && !Contains(c, "sciencedirect") && !Contains(c, "elsevier")
  }

  /** The alias cascade, checked in the source's order, over compacted text. */
  function DatabaseAlias(c: string): (r: string)
    ensures r in CanonicalNames || (r == c && AliasFree(c))
  {
    if Contains(c, "webofscience") || c == "wos" then "wos"
    else if Contains(c, "ieee") || Contains(c, "xplore") then "ieee"
    else if Contains(c, "acm") then "acm"
    else if Contains(c, "arxiv") then "arxiv"
    else if Contains(c, "springer") then "springer"
    else if Contains(c, "scopus") then "scopus"
    else if Contains(c, "pubmed") || Contains(c, "medline") then "pubmed"
    else if Contains(c, "sciencedirect") || Contains(c, "elsevier") then "sciencedirect"
    else c
  }

  /**
   * The `compact` text of normalize_database_name: the stripped, lower-cased
   * value with everything outside `[a-z0-9]` removed. An empty value gives
   * an empty compact text, so the source's two early returns are one test here.
   */
  function CompactName(raw: string): (r: string)
    ensures forall i :: 0 <= i < |r| ==> IsTitleChar(r[i])
  {
    Compact(LowerStr(Strip(raw)))
  }

  /** Python normalize_database_name; a missing value is "". */
  function NormalizeDatabaseName(raw: string): (r: string)
    ensures forall i :: 0 <= i < |r| ==> IsTitleChar(r[i])
  {
    var compact := CompactName(raw);
    if compact == "" then ""
    else
      var r := DatabaseAlias(compact);
      CanonicalTitleChars(r);
      r
  }

  lemma CanonicalTitleChars(r: string)
    ensures r in CanonicalNames ==> forall i :: 0 <= i < |r| ==> IsTitleChar(r[i])
  {
  }

  predicate HasAlnum(s: string) { exists i :: 0 <= i < |s| && IsAlnum(s[i]) }

  /** A name normalises to "" exactly when it holds no ASCII letter or digit. */
  lemma NormalizeDatabaseNameEmpty(raw: string)
    ensures NormalizeDatabaseName(raw) == "" <==> !HasAlnum(raw)
  {
    if HasAlnum(raw) {
      AlnumCompact(raw);
      assert DatabaseAlias(CompactName(raw)) != "";
    } else if CompactName(raw) != "" {
      CompactAlnum(raw);
    }
  }

  lemma AlnumCompact(raw: string)
    requires HasAlnum(raw)
    ensures CompactName(raw) != ""
  {
    var value := LowerStr(Strip(raw));
    var i :| 0 <= i < |raw| && IsAlnum(raw[i]);
    var k := StripKeeps(raw, i);
    assert IsTitleChar(value[k]);
    CompactKeeps(value, k);
  }

  lemma CompactAlnum(raw: string)
    requires CompactName(raw) != ""
    ensures HasAlnum(raw)
  {
    var t := Strip(raw);
    var value := LowerStr(t);
    var c := CompactName(raw)[0];
    assert c in value;
    var k :| 0 <= k < |value| && value[k] == c;
    assert IsAlnum(t[k]);
    assert t[k] in raw;
    var j :| 0 <= j < |raw| && raw[j] == t[k];
    assert IsAlnum(raw[j]);
  }

  /** A non-space character of s is still there after stripping. */
  lemma StripKeeps(s: string, i: nat) returns (k: nat)
    requires i < |s| && !IsSpace(s[i])
    ensures k < |Strip(s)| && Strip(s)[k] == s[i]
  {
    var t := StripStart(s, Whitespace);
    StripStartFacts(s, Whitespace);
    var d := |s| - |t|;
    assert i >= d;
    assert t[i - d] == s[i];
    var u := StripEnd(t, Whitespace);
    StripEndFacts(t, Whitespace);
    assert i - d < |u|;
    StripIsStartThenEnd(s);
    k := i - d;
  }

  lemma CanonicalAliasFree(n: string)
    requires n in CanonicalNames
    ensures DatabaseAlias(n) == n
  {
    if n == "ieee" {
      NotContainsChar(n, "webofscience", 0);
      ContainsSelf(n);
    } else if n == "acm" {
      NotContainsChar(n, "webofscience", 0);
      NotContainsChar(n, "ieee", 0);
      NotContainsChar(n, "xplore", 0);
      ContainsSelf(n);
    } else if n == "arxiv" {
      AliasArxiv();
    } else if n == "springer" {
      AliasSpringer();
    } else if n == "scopus" {
      AliasScopus();
    } else if n == "pubmed" {
      AliasPubmed();
    } else if n == "sciencedirect" {
      AliasScienceDirect();
    }
  }

  lemma AliasArxiv()
    ensures DatabaseAlias("arxiv") == "arxiv"
  {
    var n := "arxiv";
    NotContainsChar(n, "webofscience", 0);
    NotContainsChar(n, "ieee", 1);
    NotContainsChar(n, "xplore", 1);
    NotContainsChar(n, "acm", 1);
    ContainsSelf(n);
  }

  /** "ieee" does not occur in a text where no `i` is followed by `ee`. */
  lemma NoIeee(h: string)
    requires forall i :: 0 <= i < |h| - 2 ==> !(h[i] == 'i' && h[i + 1] == 'e' && h[i + 2] == 'e')
    ensures !Contains(h, "ieee")
  {
    forall i | 0 <= i <= |h| && "ieee" <= h[i..] ensures false {
      PrefixThree(h, "ieee", i);
    }
  }

  lemma PrefixThree(hay: string, needle: string, i: nat)
    requires |needle| >= 3 && i <= |hay| && needle <= hay[i..]
    ensures i + 2 < |hay| && hay[i] == needle[0] && hay[i + 1] == needle[1] && hay[i + 2] == needle[2]
  {
    assert hay[i..][0] == hay[i] && hay[i..][1] == hay[i + 1] && hay[i..][2] == hay[i + 2];
  }

  lemma AliasSpringer()
    ensures DatabaseAlias("springer") == "springer"
  {
    var n := "springer";
    NotContainsChar(n, "webofscience", 0);
    NoIeee(n);
    NotContainsChar(n, "xplore", 0);
    NotContainsChar(n, "acm", 0);
    NotContainsChar(n, "arxiv", 0);
    ContainsSelf(n);
  }

  lemma AliasScopus()
    ensures DatabaseAlias("scopus") == "scopus"
  {
    var n := "scopus";
    NotContainsChar(n, "webofscience", 0);
    NotContainsChar(n, "ieee", 0);
    NotContainsChar(n, "xplore", 0);
    NotContainsChar(n, "acm", 0);
    NotContainsChar(n, "arxiv", 0);
    NotContainsChar(n, "springer", 2);
    ContainsSelf(n);
  }

  lemma AliasPubmed()
    ensures DatabaseAlias("pubmed") == "pubmed"
  {
    var n := "pubmed";
    NotContainsChar(n, "webofscience", 0);
    NotContainsChar(n, "ieee", 0);
    NotContainsChar(n, "xplore", 0);
    NotContainsChar(n, "acm", 0);
    NotContainsChar(n, "arxiv", 0);
    NotContainsChar(n, "springer", 0);
    NotContainsChar(n, "scopus", 0);
    ContainsSelf(n);
  }

  lemma AliasScienceDirect()
    ensures DatabaseAlias("sciencedirect") == "sciencedirect"
  {
    ScienceDirectMissesEarly();
    ScienceDirectMissesLate();
    ContainsSelf("sciencedirect");
  }

  lemma ScienceDirectMissesEarly()
    ensures var n := "sciencedirect";
      !Contains(n, "webofscience") && !Contains(n, "ieee") && !Contains(n, "xplore")
      && !Contains(n, "acm") && !Contains(n, "arxiv")
  {
    var n := "sciencedirect";
    NotContainsChar(n, "webofscience", 0);
    NoIeee(n);
    NotContainsChar(n, "xplore", 0);
    NotContainsChar(n, "acm", 0);
    NotContainsChar(n, "arxiv", 0);
  }

  lemma ScienceDirectMissesLate()
    ensures var n := "sciencedirect";
      !Contains(n, "springer") && !Contains(n, "scopus") && !Contains(n, "pubmed") && !Contains(n, "medline")
  {
    var n := "sciencedirect";
    NotContainsChar(n, "springer", 1);
    NotContainsChar(n, "scopus", 2);
    NotContainsChar(n, "pubmed", 1);
    NotContainsChar(n, "medline", 0);
  }

  /** normalize_database_name is idempotent, so normalised names compare equal to priority keys. */
  lemma NormalizeDatabaseNameIdempotent(raw: string)
    ensures NormalizeDatabaseName(NormalizeDatabaseName(raw)) == NormalizeDatabaseName(raw)
  {
    var r := NormalizeDatabaseName(raw);
    if r != "" {
      NormalizedFixed(r);
    }
  }

  /** A canonical name, or compacted text no alias test fires on, normalises to itself. */
  lemma NormalizedFixed(r: string)
    requires r != "" && forall i :: 0 <= i < |r| ==> IsTitleChar(r[i])
    requires r in CanonicalNames || AliasFree(r)
    ensures NormalizeDatabaseName(r) == r
  {
    NormalizedTitleChars(r);
    if r in CanonicalNames {
      CanonicalAliasFree(r);
    }
  }

  /** Text of `[a-z0-9]` characters only goes straight to the alias cascade. */
  lemma NormalizedTitleChars(r: string)
    requires forall i :: 0 <= i < |r| ==> IsTitleChar(r[i])
    ensures CompactName(r) == r
  {
    assert Strip(r) == r;
    assert NoUpper(r);
    LowerStrNoUpperId(r);
  }

  // ------------------------------------------------------------------
  // infer_database_name
  // ------------------------------------------------------------------

  /** The explicit source fields, in the order they are consulted. */
  const ExplicitKeys: seq<string> := ["_source_database", "_database", "database"]

  /** The normalised name of the first field of keys that normalises to a non-empty name, or "". */
  function FirstNamed(e: Entry, keys: seq<string>): (r: string)
    ensures NormalizeDatabaseName(r) == r
    ensures r == "" <==> forall k :: 0 <= k < |keys| ==> NormalizeDatabaseName(Field(e, keys[k])) == ""
  {
    if |keys| == 0 then ""
    else
      var n := NormalizeDatabaseName(Field(e, keys[0]));
      NormalizeDatabaseNameIdempotent(Field(e, keys[0]));
      var rest := FirstNamed(e, keys[1..]);
      assert forall k :: 1 <= k < |keys| ==> keys[k] == keys[1..][k - 1];
      if n != "" then n else rest
  }

  /** The first field that names a database decides, whatever the later ones say. */
  lemma {:induction false} FirstNamedAt(e: Entry, keys: seq<string>, k: nat)
    requires k < |keys| && NormalizeDatabaseName(Field(e, keys[k])) != ""
    requires forall j :: 0 <= j < k ==> NormalizeDatabaseName(Field(e, keys[j])) == ""
    ensures FirstNamed(e, keys) == NormalizeDatabaseName(Field(e, keys[k]))
    decreases k
  {
    if k > 0 {
      var tail := keys[1..];
      FirstNamedSkip(e, keys);
      forall j | 0 <= j < k - 1
        ensures NormalizeDatabaseName(Field(e, tail[j])) == ""
      {
        assert tail[j] == keys[j + 1];
      }
      assert tail[k - 1] == keys[k];
      FirstNamedAt(e, tail, k - 1);
    }
  }

  /** A first key that names nothing is passed over. */
  lemma FirstNamedSkip(e: Entry, keys: seq<string>)
    requires |keys| > 0 && NormalizeDatabaseName(Field(e, keys[0])) == ""
    ensures FirstNamed(e, keys) == FirstNamed(e, keys[1..])
  {
  }

  /** The database a DOI prefix names, or "". */
  function DoiSource(e: Entry): (r: string)
    ensures r == "" || r in CanonicalNames
  {
    var doi := LowerStr(Strip(Field(e, "doi")));
    if StartsWith(doi, "10.1145/") then "acm"
    else if StartsWith(doi, "10.1109/") then "ieee"
    else if StartsWith(doi, "10.48550/arxiv.") then "arxiv"
    else ""
  }

  /** Characters urlsplit accepts in a scheme. */
  predicate IsSchemeChar(c: char) { IsAlnum(c) || c == '+' || c == '-' || c == '.' }

  /**
   * What urlsplit leaves after the scheme: the text after the first `:`
   * when that colon is preceded by a letter and scheme characters only,
   * else the whole URL.
   */
  function AfterScheme(url: string): (r: string)
    ensures |r| <= |url|
  {
    match IndexOf(url, ':')
    case None => url
    case Some(i) =>
      if i > 0 && IsAlpha(url[0]) && forall k :: 0 <= k < i ==> IsSchemeChar(url[k]) then url[i + 1..] else url
  }

  /** urlparse(url).netloc */
  function Netloc(url: string): string
  {
    PdfLibrary.SplitNetloc(AfterScheme(url)).0
  }

  /** The database a URL's host names, or "". */
  function HostSource(e: Entry): (r: string)
    ensures r == "" || r in CanonicalNames
  {
    var url := LowerStr(Strip(OrElse(Field(e, "url"), Field(e, "URL"))));
    if url == "" then "" else HostDatabase(LowerStr(Netloc(url)))
  }

  /** The host tests, in the source's order. */
  function HostDatabase(host: string): (r: string)
    ensures r == "" || r in CanonicalNames
  {
    if Contains(host, "dl.acm.org") then "acm"
    else if Contains(host, "ieeexplore.ieee.org") then "ieee"
    else if Contains(host, "arxiv.org") then "arxiv"
    else if Contains(host, "link.springer.com") then "springer"
    else if Contains(host, "webofscience.com") then "wos"
    else ""
  }

  /** The publisher, journal, booktitle and series fields joined by spaces, normalised. */
  function TextSource(e: Entry): (r: string)
    ensures NormalizeDatabaseName(r) == r
  {
    var text := Join([Field(e, "publisher"), Field(e, "journal"), Field(e, "booktitle"), Field(e, "series")], " ");
    NormalizeDatabaseNameIdempotent(text);
    NormalizeDatabaseName(text)
  }

  /** Python infer_database_name: explicit metadata, then the DOI prefix, then the URL host, then publisher text. */
  function InferDatabaseName(e: Entry): (r: string)
    ensures NormalizeDatabaseName(r) == r
  {
    var explicit := FirstNamed(e, ExplicitKeys);
    if explicit != "" then explicit
    else
      var doi := DoiSource(e);
      var host := HostSource(e);
      if doi != "" then CanonicalFixed(doi); doi
      else if host != "" then CanonicalFixed(host); host
      else TextSource(e)
  }

  lemma CanonicalFixed(n: string)
    requires n in CanonicalNames
    ensures NormalizeDatabaseName(n) == n
  {
    CanonicalTitleChars(n);
    NormalizedFixed(n);
  }

  /** Explicit source metadata wins: the first of the explicit fields that names a database. */
  lemma InferFromExplicit(e: Entry, k: nat)
    requires k < |ExplicitKeys| && NormalizeDatabaseName(Field(e, ExplicitKeys[k])) != ""
    requires forall j :: 0 <= j < k ==> NormalizeDatabaseName(Field(e, ExplicitKeys[j])) == ""
    ensures InferDatabaseName(e) == NormalizeDatabaseName(Field(e, ExplicitKeys[k]))
  {
    FirstNamedAt(e, ExplicitKeys, k);
  }

  /** A lower-case DNS host name. */
  predicate DnsHost(host: string)
  {
    |host| > 0 && forall i :: 0 <= i < |host| ==> IsTitleChar(host[i]) || host[i] == '.' || host[i] == '-'
  }

  /** urlparse reads the host of `https://host/...` as the network location. */
  lemma NetlocHttps(host: string, tail: string)
    requires DnsHost(host) && (tail == "" || tail[0] == '/')
    ensures Netloc("https://" + host + tail) == host
  {
    var url := "https://" + host + tail;
    assert url[5] == ':' && url[..5] == "https";
    IndexOfAt(url, ':', 5);
    assert url[6..] == "//" + host + tail;
    PdfLibrary.NetlocOf(host, tail);
  }

  /** An https URL on a DNS host, already lower-case and without surrounding whitespace. */
  lemma CleanUrl(host: string, tail: string)
    requires DnsHost(host)
    requires tail == "" || (tail[0] == '/' && NoUpper(tail) && !IsSpace(tail[|tail| - 1]))
    ensures LowerStr(Strip("https://" + host + tail)) == "https://" + host + tail
  {
    var url := "https://" + host + tail;
    StripIsStartThenEnd(url);
    StripStartNone(url, Whitespace);
    StripEndNone(url, Whitespace);
    assert NoUpper(url);
    LowerStrNoUpperId(url);
  }

  /** The host of an https URL in the `url` field is what HostSource tests. */
  lemma HostSourceHttps(e: Entry, host: string, tail: string)
    requires DnsHost(host)
    requires tail == "" || (tail[0] == '/' && NoUpper(tail) && !IsSpace(tail[|tail| - 1]))
    requires Field(e, "url") == "https://" + host + tail
    ensures HostSource(e) == HostDatabase(host)
  {
    CleanUrl(host, tail);
    NetlocHttps(host, tail);
    assert NoUpper(host);
    LowerStrNoUpperId(host);
  }

  /**
   * With no explicit source and no known DOI prefix, an https URL whose host
   * contains `ieeexplore.ieee.org` (and not `dl.acm.org`) names IEEE.
   */
  lemma InferFromIeeeHost(e: Entry, host: string, tail: string)
    requires FirstNamed(e, ExplicitKeys) == "" && DoiSource(e) == ""
    requires DnsHost(host) && Contains(host, "ieeexplore.ieee.org") && !Contains(host, "dl.acm.org")
    requires tail == "" || (tail[0] == '/' && NoUpper(tail) && !IsSpace(tail[|tail| - 1]))
    requires Field(e, "url") == "https://" + host + tail
    ensures InferDatabaseName(e) == "ieee"
  {
    HostSourceHttps(e, host, tail);
  }

  // ------------------------------------------------------------------
  // parse_database_priority and database_priority_rank
  // ------------------------------------------------------------------

  /** The configured priority: absent, a list of names, or text such as "ACM > IEEE, WoS". */
  datatype PriorityInput = NoPriority | PriorityList(items: seq<string>) | PriorityText(text: string)

  /** The separators of the pattern `[,\n>]+`. */
  const PrioritySeps: set<char> := {',', '\n', '>'}

  /** Every piece of ps is free of the characters in cs. */
  predicate PiecesAvoid(ps: seq<string>, cs: set<char>)
  {
    forall i, j :: 0 <= i < |ps| && 0 <= j < |ps[i]| ==> ps[i][j] !in cs
  }

  /** re.split over runs of the characters in seps. */
  function SplitRuns(s: string, seps: set<char>): (r: seq<string>)
    ensures |r| >= 1 && PiecesAvoid(r, seps)
    decreases |s|
  {
    var n := FirstOf(s, seps);
    if n == |s| then [s]
    else
      var rest := SplitRuns(StripStart(s[n + 1..], seps), seps);
      assert forall i :: 1 <= i < |rest| + 1 ==> ([s[..n]] + rest)[i] == rest[i - 1];
      [s[..n]] + rest
  }

  /** Non-empty pieces free of separators, joined by one separator, split back into those pieces. */
  lemma {:induction false} SplitRunsJoin(parts: seq<string>, sep: char, seps: set<char>)
    requires |parts| >= 1 && sep in seps && PiecesAvoid(parts, seps)
    requires forall i :: 0 <= i < |parts| ==> |parts[i]| > 0
    ensures SplitRuns(Join(parts, [sep]), seps) == parts
    decreases |parts|
  {
    var a := parts[0];
    assert forall j :: 0 <= j < |a| ==> a[j] !in seps;
    if |parts| == 1 {
      PdfLibrary.FirstOfAll(a, seps);
    } else {
      var tail := parts[1..];
      assert PiecesAvoid(tail, seps) && forall i :: 0 <= i < |tail| ==> |tail[i]| > 0 by {
        assert forall i :: 0 <= i < |parts| - 1 ==> tail[i] == parts[i + 1];
      }
      SplitRunsJoin(tail, sep, seps);
      JoinStartsWith(tail, [sep]);
      assert tail[0][0] !in seps;
      SplitRunsCons(a, Join(tail, [sep]), sep, seps);
    }
  }

  /** One piece, one separator, then text starting on a non-separator. */
  lemma SplitRunsCons(a: string, rest: string, sep: char, seps: set<char>)
    requires forall j :: 0 <= j < |a| ==> a[j] !in seps
    requires sep in seps && |rest| > 0 && rest[0] !in seps
    ensures SplitRuns(a + [sep] + rest, seps) == [a] + SplitRuns(rest, seps)
  {
    var s := a + [sep] + rest;
    PdfLibrary.FirstOfPrefix(a, [sep] + rest, seps);
    assert s == a + ([sep] + rest);
    assert s[|a| + 1..] == rest;
    StripStartNone(rest, seps);
    assert s[..|a|] == a;
  }

  /** A join of non-empty parts starts with the first part's first character. */
  lemma JoinStartsWith(parts: seq<string>, sep: string)
    requires |parts| >= 1 && |parts[0]| > 0
    ensures |Join(parts, sep)| > 0 && Join(parts, sep)[0] == parts[0][0]
  {
  }

  /** Each item stripped of surrounding whitespace. */
  function StripAll(items: seq<string>): (r: seq<string>)
    ensures |r| == |items|
    ensures forall i :: 0 <= i < |items| ==> r[i] == Strip(items[i])
  {
    seq(|items|, i requires 0 <= i < |items| => Strip(items[i]))
  }

  /** The tokens parse_database_priority normalises, in order. */
  function PriorityTokens(raw: PriorityInput): seq<string>
  {
    match raw
    case NoPriority => []
    case PriorityList(items) => StripAll(items)
    case PriorityText(text) => StripAll(SplitRuns(text, PrioritySeps))
  }

  /** Each token normalised. */
  function Normalized(tokens: seq<string>): (r: seq<string>)
    ensures |r| == |tokens|
    ensures forall i :: 0 <= i < |tokens| ==> r[i] == NormalizeDatabaseName(tokens[i])
  {
    seq(|tokens|, i requires 0 <= i < |tokens| => NormalizeDatabaseName(tokens[i]))
  }

  /** The distinct non-empty names, in order of first appearance. */
  function Firsts(names: seq<string>): (r: seq<string>)
    ensures forall p, q :: 0 <= p < q < |r| ==> r[p] != r[q]
    ensures forall x :: x in r <==> x != "" && x in names
  {
    if |names| == 0 then []
    else
      var m := |names| - 1;
      var prev := Firsts(names[..m]);
      var x := names[m];
      assert names == names[..m] + [x];
      if x == "" || x in prev then prev else prev + [x]
  }

  lemma FirstsSnoc(names: seq<string>, x: string)
    ensures Firsts(names + [x]) == if x == "" || x in Firsts(names) then Firsts(names) else Firsts(names) + [x]
  {
    assert (names + [x])[..|names|] == names;
  }

  /** Position of the first occurrence of x. */
  function FirstIndex(xs: seq<string>, x: string): (i: nat)
    requires x in xs
    ensures i < |xs| && xs[i] == x && x !in xs[..i]
  {
    if xs[0] == x then 0
    else
      var i := FirstIndex(xs[1..], x);
      assert xs[..i + 1] == [xs[0]] + xs[1..][..i];
      i + 1
  }

  lemma FirstIndexIs(xs: seq<string>, x: string, i: nat)
    requires i < |xs| && xs[i] == x && x !in xs[..i]
    ensures FirstIndex(xs, x) == i
  {
  }

  /** Names keep the order of their first appearance. */
  lemma {:induction false} FirstsOrder(names: seq<string>, p: nat, q: nat)
    requires p < q < |Firsts(names)|
    ensures FirstIndex(names, Firsts(names)[p]) < FirstIndex(names, Firsts(names)[q])
    decreases |names|
  {
    var m := |names| - 1;
    var init := names[..m];
    var prev := Firsts(init);
    var x := names[m];
    assert names == init + [x];
    var r := Firsts(names);
    if q < |prev| {
      assert r[p] == prev[p] && r[q] == prev[q];
      FirstsOrder(init, p, q);
      FirstIndexSnoc(init, x, prev[p]);
      FirstIndexSnoc(init, x, prev[q]);
    } else {
      assert r == prev + [x] && r[q] == x && x !in prev;
      assert x !in init;
      assert names[..m] == init;
      FirstIndexIs(names, x, m);
      assert r[p] == prev[p] && prev[p] in init;
      FirstIndexSnoc(init, x, prev[p]);
    }
  }

  lemma FirstIndexSnoc(xs: seq<string>, y: string, x: string)
    requires x in xs
    ensures FirstIndex(xs + [y], x) == FirstIndex(xs, x)
  {
    var i := FirstIndex(xs, x);
    assert (xs + [y])[..i] == xs[..i];
    FirstIndexIs(xs + [y], x, i);
  }

  /** Every name of Firsts over normalised tokens is itself normalised. */
  lemma FirstsNormalized(tokens: seq<string>, x: string)
    requires x in Firsts(Normalized(tokens))
    ensures x != "" && NormalizeDatabaseName(x) == x
  {
    var names := Normalized(tokens);
    var i :| 0 <= i < |names| && names[i] == x;
    NormalizeDatabaseNameIdempotent(tokens[i]);
  }

  /** order maps each of keys to its position, and nothing else. */
  ghost predicate Ranked(order: map<string, nat>, keys: seq<string>)
  {
    && (forall x :: x in order <==> x in keys)
    && (forall p :: 0 <= p < |keys| ==> order[keys[p]] == p)
    && |order| == |keys|
  }

  lemma RankedAppend(order: map<string, nat>, keys: seq<string>, x: string)
    requires Ranked(order, keys) && x !in order
    ensures Ranked(order[x := |order|], keys + [x])
  {
    var o := order[x := |order|];
    var k := keys + [x];
    forall p | 0 <= p < |k| ensures o[k[p]] == p {
      if p < |keys| {
        assert k[p] == keys[p] && keys[p] in order;
      }
    }
  }

  lemma PrefixSnoc(xs: seq<string>, t: nat)
    requires t < |xs|
    ensures xs[..t + 1] == xs[..t] + [xs[t]]
  {
  }

  lemma FirstsStep(names: seq<string>, t: nat, keys: seq<string>)
    requires t < |names| && keys == Firsts(names[..t])
    ensures Firsts(names[..t + 1]) == if names[t] == "" || names[t] in keys then keys else keys + [names[t]]
  {
    PrefixSnoc(names, t);
    FirstsSnoc(names[..t], names[t]);
  }

  /** One token of parse_database_priority: a new non-empty name gets the next rank. */
  method AddRank(order: map<string, nat>, keys: seq<string>, name: string) returns (order': map<string, nat>, keys': seq<string>)
    requires Ranked(order, keys)
    ensures keys' == if name == "" || name in keys then keys else keys + [name]
    ensures Ranked(order', keys')
  {
    order', keys' := order, keys;
    if name != "" && name !in order {
      RankedAppend(order, keys, name);
      order' := order[name := |order|];
      keys' := keys + [name];
    }
  }

  /**
   * Python parse_database_priority: the dict from normalised name to rank,
   * with its keys in insertion order.
   */
  method ParseDatabasePriority(raw: PriorityInput) returns (order: map<string, nat>, keys: seq<string>)
    ensures keys == Firsts(Normalized(PriorityTokens(raw)))
    ensures Ranked(order, keys)
  {
    var tokens := PriorityTokens(raw);
    ghost var names := Normalized(tokens);
    order := map[];
    keys := [];
    for t := 0 to |tokens|
      invariant keys == Firsts(names[..t])
      invariant Ranked(order, keys)
    {
      var normalized := NormalizeDatabaseName(tokens[t]);
      FirstsStep(names, t, keys);
      order, keys := AddRank(order, keys, normalized);
    }
    assert names[..|tokens|] == names;
  }

  /** Ranks 0..k-1 over k normalised names: what ParseDatabasePriority produces. */
  predicate DenseRanks(order: map<string, nat>)
  {
    forall x :: x in order ==> order[x] < |order|
  }

  /** The dict parse_database_priority returns has dense ranks and normalised keys. */
  lemma ParsedPriorityDense(tokens: seq<string>, order: map<string, nat>, keys: seq<string>)
    requires keys == Firsts(Normalized(tokens)) && Ranked(order, keys)
    ensures DenseRanks(order)
    ensures forall x :: x in order ==> x != "" && NormalizeDatabaseName(x) == x
  {
    forall x | x in order ensures order[x] < |order| && x != "" && NormalizeDatabaseName(x) == x {
      var p :| 0 <= p < |keys| && keys[p] == x;
      FirstsNormalized(tokens, x);
    }
  }

  /** Python database_priority_rank; an absent priority is the empty map. */
  function DatabasePriorityRank(e: Entry, order: map<string, nat>): (r: int)
    ensures |order| == 0 ==> r == 10000
  {
    if |order| == 0 then 10000
    else
      var db := InferDatabaseName(e);
      if db in order then order[db] else |order| + 10000
  }

  /** Under dense ranks a listed database always ranks before an unlisted one, and unlisted ones tie. */
  lemma ListedBeatsUnlisted(e: Entry, f: Entry, order: map<string, nat>)
    requires DenseRanks(order)
    requires InferDatabaseName(f) !in order
    ensures InferDatabaseName(e) in order ==> DatabasePriorityRank(e, order) < DatabasePriorityRank(f, order)
    ensures InferDatabaseName(e) !in order ==> DatabasePriorityRank(e, order) == DatabasePriorityRank(f, order)
  {
  }

  /** Under dense ranks, listed databases are ranked by their position in the priority. */
  lemma ListedByPosition(e: Entry, f: Entry, order: map<string, nat>)
    requires InferDatabaseName(e) in order && InferDatabaseName(f) in order
    ensures DatabasePriorityRank(e, order) < DatabasePriorityRank(f, order)
        <==> order[InferDatabaseName(e)] < order[InferDatabaseName(f)]
  {
  }

  // ------------------------------------------------------------------
  // pick_representative
  // ------------------------------------------------------------------

  /** The sort key of pick_representative; tuples compare lexicographically. */
  datatype RankKey = RankKey(year: int, source: int, doi: int, completeness: int, index: nat)

  /** Python's `<` on the key tuples. */
  predicate KeyLt(a: RankKey, b: RankKey)
  {
    || a.year < b.year
    || (a.year == b.year && a.source < b.source)
    || (a.year == b.year && a.source == b.source && a.doi < b.doi)
    || (a.year == b.year && a.source == b.source && a.doi == b.doi && a.completeness < b.completeness)
    || (a.year == b.year && a.source == b.source && a.doi == b.doi && a.completeness == b.completeness && a.index < b.index)
  }

  lemma KeyLtTransitive(a: RankKey, b: RankKey, c: RankKey)
    requires KeyLt(a, b) && KeyLt(b, c)
    ensures KeyLt(a, c)
  {
  }

  lemma KeyLtTotal(a: RankKey, b: RankKey)
    ensures KeyLt(a, b) || KeyLt(b, a) || a == b
  {
  }

  /** Every member index lies in keys. */
  predicate Indexes(members: seq<nat>, n: nat) { forall i :: 0 <= i < |members| ==> members[i] < n }

  /** sorted(members, key)[0]: the first member with the least key. */
  function ArgMin(members: seq<nat>, keys: seq<RankKey>): (r: nat)
    requires |members| > 0 && Indexes(members, |keys|)
    ensures r in members
    ensures forall i :: 0 <= i < |members| ==> !KeyLt(keys[members[i]], keys[r])
    decreases |members|
  {
    if |members| == 1 then members[0]
    else
      var rest := ArgMin(members[1..], keys);
      var first := members[0];
      if !KeyLt(keys[rest], keys[first]) then
        KeyLtTotal(keys[rest], keys[first]);
        forall i | 1 <= i < |members| ensures !KeyLt(keys[members[i]], keys[first]) {
          assert members[i] == members[1..][i - 1];
          if KeyLt(keys[members[i]], keys[first]) && keys[first] != keys[rest] {
            KeyLtTransitive(keys[members[i]], keys[first], keys[rest]);
          }
        }
        first
      else
        assert forall i :: 1 <= i < |members| ==> members[i] == members[1..][i - 1];
        KeyLtTotal(keys[rest], keys[first]);
        rest
  }

  /** Python has_doi. */
  function HasDoi(e: Entry): (r: nat)
    ensures r <= 1
    ensures r == 1 <==> Strip(Field(e, "doi")) != ""
  {
    if Strip(Field(e, "doi")) != "" then 1 else 0
  }

  /** The key pick_representative sorts member idx by. */
  function RepresentativeKey(entries: seq<Entry>, order: map<string, nat>, preferDoi: bool, idx: nat): RankKey
    requires idx < |entries|
  {
    var e := entries[idx];
    RankKey(-ParseYear(e), DatabasePriorityRank(e, order), if preferDoi then -(HasDoi(e) as int) else 0, -(CompletenessScore(e) as int), idx)
  }

  function RepresentativeKeys(entries: seq<Entry>, order: map<string, nat>, preferDoi: bool): (ks: seq<RankKey>)
    ensures |ks| == |entries|
    ensures forall i :: 0 <= i < |entries| ==> ks[i] == RepresentativeKey(entries, order, preferDoi, i)
  {
    seq(|entries|, i requires 0 <= i < |entries| => RepresentativeKey(entries, order, preferDoi, i))
  }

  /** Python pick_representative over a non-empty member list. */
  function PickRepresentative(members: seq<nat>, entries: seq<Entry>, order: map<string, nat>, preferDoi: bool): (r: nat)
    requires |members| > 0 && Indexes(members, |entries|)
    ensures r in members && r < |entries|
    ensures forall i :: 0 <= i < |members| ==>
      !KeyLt(RepresentativeKey(entries, order, preferDoi, members[i]), RepresentativeKey(entries, order, preferDoi, r))
  {
    ArgMin(members, RepresentativeKeys(entries, order, preferDoi))
  }

  /**
   * What the key means: the representative has the latest year; among the
   * latest, the best database rank; then a DOI when preferred; then the most
   * complete record; and among full ties the smallest index.
   */
  lemma RepresentativeIsBest(members: seq<nat>, entries: seq<Entry>, order: map<string, nat>, preferDoi: bool, i: nat)
    requires |members| > 0 && Indexes(members, |entries|) && i < |members|
    ensures var r := PickRepresentative(members, entries, order, preferDoi);
      var m := members[i];
      && ParseYear(entries[m]) <= ParseYear(entries[r])
      && (ParseYear(entries[m]) == ParseYear(entries[r]) ==>
            DatabasePriorityRank(entries[r], order) <= DatabasePriorityRank(entries[m], order))
      && (ParseYear(entries[m]) == ParseYear(entries[r])
          && DatabasePriorityRank(entries[r], order) == DatabasePriorityRank(entries[m], order) && preferDoi ==>
            HasDoi(entries[m]) <= HasDoi(entries[r]))
      && (RepresentativeKey(entries, order, preferDoi, m).(index := 0) == RepresentativeKey(entries, order, preferDoi, r).(index := 0) ==>
            r <= m)
  {
    var r := PickRepresentative(members, entries, order, preferDoi);
    assert !KeyLt(RepresentativeKey(entries, order, preferDoi, members[i]), RepresentativeKey(entries, order, preferDoi, r));
  }

  /** The representative is the only member no other member's key beats. */
  lemma RepresentativeUnique(members: seq<nat>, entries: seq<Entry>, order: map<string, nat>, preferDoi: bool, m: nat)
    requires |members| > 0 && Indexes(members, |entries|) && m in members
    requires forall i :: 0 <= i < |members| ==>
      !KeyLt(RepresentativeKey(entries, order, preferDoi, members[i]), RepresentativeKey(entries, order, preferDoi, m))
    ensures PickRepresentative(members, entries, order, preferDoi) == m
  {
    var r := PickRepresentative(members, entries, order, preferDoi);
    var a := RepresentativeKey(entries, order, preferDoi, m);
    var b := RepresentativeKey(entries, order, preferDoi, r);
    KeyLtTotal(a, b);
  }
}
