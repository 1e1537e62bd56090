/**
 * The Springer Link CSV to BibTeX converter: text cleaning, slugs, unique
 * citation keys, the CSV and Crossref entry types, the Crossref field
 * extractors, the CSV/Crossref merge and the entry layout.
 * The Crossref record and the scraped abstract are inputs; fetching them
 * is not modelled.
 */
module SpringerBibtex {
  import opened Wrappers
  import opened Text
  import opened Perm
  import Bib
  import BibWrite

  // ------------------------------------------------------------------
  // text cleaning
  // ------------------------------------------------------------------

  /** " ".join(value.split()) */
  function NormalizeWhitespace(value: string): (r: string)
    ensures Collapsed(r)
    ensures (forall i :: 0 <= i < |value| ==> IsSpace(value[i])) ==> r == ""
  {
    if forall i :: 0 <= i < |value| ==> IsSpace(value[i]) then
      AllSpaceNoWords(value);
      CollapseSpaces(value)
    else CollapseSpaces(value)
  }

  lemma {:induction false} AllSpaceStripped(s: string)
    requires forall i :: 0 <= i < |s| ==> IsSpace(s[i])
    ensures StripStart(s, Whitespace) == ""
    decreases |s|
  {
    if |s| > 0 {
      assert IsSpace(s[0]);
      AllSpaceStripped(s[1..]);
    }
  }

  lemma AllSpaceNoWords(s: string)
    requires forall i :: 0 <= i < |s| ==> IsSpace(s[i])
    ensures CollapseSpaces(s) == ""
  {
    AllSpaceStripped(s);
  }

  /** Normalising is idempotent. */
  lemma NormalizeWhitespaceIdempotent(value: string)
    ensures NormalizeWhitespace(NormalizeWhitespace(value)) == NormalizeWhitespace(value)
  {
    CollapsedFixed(NormalizeWhitespace(value));
  }

  const Nbsp: char := '\U{00A0}'

  /**
   * clean_text: "" for a missing or empty value; otherwise the value
   * HTML-unescaped (html.unescape is the parameter `unescape`), with
   * no-break spaces turned into spaces, stripped and whitespace-normalised.
   */
  function CleanText(unescape: string -> string, value: Option<string>): (r: string)
    ensures Collapsed(r)
    ensures Nbsp !in r
    ensures value.None? || value.value == "" ==> r == ""
  {
    if value.None? || value.value == "" then ""
    else
      var spaced := ReplaceChar(unescape(value.value), Nbsp, ' ');
      var stripped := Strip(spaced);
      assert Nbsp !in spaced;
      assert Nbsp !in stripped;
      CollapseSpacesAvoid(stripped, Nbsp);
      NormalizeWhitespace(stripped)
  }

  lemma ReplaceCharAbsent(s: string, c: char, d: char)
    requires c !in s
    ensures ReplaceChar(s, c, d) == s
  {
    var r := ReplaceChar(s, c, d);
    forall i | 0 <= i < |s| ensures r[i] == s[i] { assert s[i] != c; }
  }

  lemma StripCollapsed(s: string)
    requires Collapsed(s)
    ensures Strip(s) == s
  {
    StripIsStartThenEnd(s);
    StripStartNone(s, Whitespace);
    StripEndNone(s, Whitespace);
  }

  /**
   * Cleaning already clean text changes nothing, provided unescaping leaves
   * it alone (it holds no character reference such as "&amp;"; otherwise a
   * second pass unescapes once more).
   */
  lemma CleanTextIdempotent(unescape: string -> string, value: Option<string>)
    requires unescape(CleanText(unescape, value)) == CleanText(unescape, value)
    ensures CleanText(unescape, Some(CleanText(unescape, value))) == CleanText(unescape, value)
  {
    var c := CleanText(unescape, value);
    if c != "" {
      ReplaceCharAbsent(c, Nbsp, ' ');
      StripCollapsed(c);
      CollapsedFixed(c);
    }
  }

  /** A character reference left by one pass is unescaped by the next: cleaning twice unescapes twice. */
  lemma CleanTextTwice(unescape: string -> string, value: Option<string>)
    requires CleanText(unescape, value) != ""
    requires Collapsed(unescape(CleanText(unescape, value))) && Nbsp !in unescape(CleanText(unescape, value))
    ensures CleanText(unescape, Some(CleanText(unescape, value))) == unescape(CleanText(unescape, value))
  {
    var u := unescape(CleanText(unescape, value));
    ReplaceCharAbsent(u, Nbsp, ' ');
    StripCollapsed(u);
    CollapsedFixed(u);
  }

  // ------------------------------------------------------------------
  // slugify
  // ------------------------------------------------------------------

  /** The text after its leading run of non-alphanumerics. */
  function SkipNonAlnum(s: string): (r: string)
    ensures |r| <= |s|
    ensures |r| > 0 ==> IsAlnum(r[0])
    ensures r == s[|s| - |r|..]
    ensures forall i :: 0 <= i < |s| - |r| ==> !IsAlnum(s[i])
  {
    if |s| > 0 && !IsAlnum(s[0]) then
      var r := SkipNonAlnum(s[1..]);
      assert forall i :: 1 <= i < |s| - |r| ==> s[i] == s[1..][i - 1];
      r
    else s
  }

  /** re.sub(r"[^A-Za-z0-9]+", "_", s): every run of non-alphanumerics becomes one "_". */
  function SlugRuns(s: string): (r: string)
    ensures forall i :: 0 <= i < |r| ==> IsAlnum(r[i]) || r[i] == '_'
    ensures |r| > 0 && |s| > 0 && IsAlnum(s[0]) ==> r[0] == s[0]
    ensures |s| > 0 ==> |r| > 0
    decreases |s|
  {
    if |s| == 0 then ""
    else if IsAlnum(s[0]) then [s[0]] + SlugRuns(s[1..])
    else "_" + SlugRuns(SkipNonAlnum(s[1..]))
  }

  /** No two underscores in a row. */
  predicate NoDoubleUnderscore(s: string)
  {
    forall i :: 0 <= i < |s| - 1 ==> !(s[i] == '_' && s[i + 1] == '_')
  }

  lemma ConsNoDouble(c: char, u: string)
    requires NoDoubleUnderscore(u)
    requires c != '_' || |u| == 0 || u[0] != '_'
    ensures NoDoubleUnderscore([c] + u)
  {
    var r := [c] + u;
    forall i | 0 <= i < |r| - 1 ensures !(r[i] == '_' && r[i + 1] == '_') {
      if i > 0 {
        assert r[i] == u[i - 1] && r[i + 1] == u[i];
      }
    }
  }

  lemma {:induction false} SlugRunsSingle(s: string)
    ensures NoDoubleUnderscore(SlugRuns(s))
    decreases |s|
  {
    if |s| > 0 {
      if IsAlnum(s[0]) {
        SlugRunsSingle(s[1..]);
        ConsNoDouble(s[0], SlugRuns(s[1..]));
        assert SlugRuns(s) == [s[0]] + SlugRuns(s[1..]);
      } else {
        var t := SkipNonAlnum(s[1..]);
        var u := SlugRuns(t);
        SlugRunsSingle(t);
        assert |u| == 0 || u[0] != '_' by {
          if |t| > 0 {
            assert IsAlnum(t[0]);
          }
        }
        ConsNoDouble('_', u);
        assert SlugRuns(s) == ['_'] + u;
      }
    }
  }

  /** The alphanumeric characters of s, in order. */
  function Alnums(s: string): (r: string)
    ensures |r| <= |s|
  {
    if |s| == 0 then "" else (if IsAlnum(s[0]) then [s[0]] else "") + Alnums(s[1..])
  }

  lemma {:induction false} AlnumsSkipped(s: string)
    ensures Alnums(SkipNonAlnum(s)) == Alnums(s)
    decreases |s|
  {
    if |s| > 0 && !IsAlnum(s[0]) {
      AlnumsSkipped(s[1..]);
    }
  }

  lemma {:induction false} SlugRunsAlnums(s: string)
    ensures Alnums(SlugRuns(s)) == Alnums(s)
    decreases |s|
  {
    if |s| > 0 {
      if IsAlnum(s[0]) {
        SlugRunsAlnums(s[1..]);
        assert ([s[0]] + SlugRuns(s[1..]))[1..] == SlugRuns(s[1..]);
      } else {
        var t := SkipNonAlnum(s[1..]);
        SlugRunsAlnums(t);
        AlnumsSkipped(s[1..]);
        assert ("_" + SlugRuns(t))[1..] == SlugRuns(t);
      }
    }
  }

  lemma {:induction false} AlnumsUnderscores(s: string)
    requires forall i :: 0 <= i < |s| ==> s[i] == '_'
    ensures Alnums(s) == ""
    decreases |s|
  {
    if |s| > 0 { AlnumsUnderscores(s[1..]); }
  }

  lemma {:induction false} AlnumsConcat(a: string, b: string)
    ensures Alnums(a + b) == Alnums(a) + Alnums(b)
    decreases |a|
  {
    if |a| > 0 {
      assert (a + b)[0] == a[0];
      assert (a + b)[1..] == a[1..] + b;
      AlnumsConcat(a[1..], b);
    } else {
      assert a + b == b;
    }
  }

  lemma {:induction false} AlnumsLower(s: string)
    ensures Alnums(LowerStr(s)) == LowerStr(Alnums(s))
    decreases |s|
  {
    if |s| > 0 {
      AlnumsLower(s[1..]);
      assert LowerStr(s)[1..] == LowerStr(s[1..]);
      LowerStrConcat(if IsAlnum(s[0]) then [s[0]] else "", Alnums(s[1..]));
    }
  }

  /** Stripping underscores leaves a slice of the text. */
  lemma StripUnderscoresSlice(s: string) returns (lo: nat, hi: nat)
    ensures lo <= hi <= |s|
    ensures StripSet(s, {'_'}) == s[lo..hi]
    ensures forall i :: 0 <= i < lo ==> s[i] == '_'
    ensures forall i :: hi <= i < |s| ==> s[i] == '_'
  {
    var cs := {'_'};
    var t := StripStart(s, cs);
    StripStartFacts(s, cs);
    StripEndFacts(t, cs);
    lo := |s| - |t|;
    hi := lo + |StripEnd(t, cs)|;
    assert t[..|StripEnd(t, cs)|] == s[lo..hi];
    forall i | hi <= i < |s| ensures s[i] == '_' {
      assert s[i] == t[i - lo];
    }
  }

  /** The slug before the fallback: runs replaced, underscores stripped, lower-cased. */
  function Slug(value: string): string
  {
    LowerStr(StripSet(SlugRuns(value), {'_'}))
  }

  /** slugify: the slug, or "entry" when nothing is left. */
  function Slugify(value: string): (r: string)
  {
    var slug := Slug(value);
    if slug != "" then slug else "entry"
  }

  predicate SlugChar(c: char) { IsLowerAlpha(c) || IsDigit(c) || c == '_' }

  /** Characters a slug is made of before lower-casing. */
  predicate RunChars(s: string) { forall i :: 0 <= i < |s| ==> IsAlnum(s[i]) || s[i] == '_' }

  /** Stripping underscores from the ends drops no alphanumeric. */
  lemma StripKeepsAlnums(s: string)
    ensures Alnums(StripSet(s, {'_'})) == Alnums(s)
  {
    var lo, hi := StripUnderscoresSlice(s);
    var m := s[lo..hi];
    assert s == s[..lo] + m + s[hi..];
    AlnumsConcat(s[..lo] + m, s[hi..]);
    AlnumsConcat(s[..lo], m);
    AlnumsUnderscores(s[..lo]);
    AlnumsUnderscores(s[hi..]);
  }

  /** Stripping the underscores of a run-replaced text keeps its shape and its alphanumerics. */
  lemma StripRuns(s: string)
    requires RunChars(s) && NoDoubleUnderscore(s)
    ensures var m := StripSet(s, {'_'});
      && RunChars(m) && NoDoubleUnderscore(m) && Alnums(m) == Alnums(s)
      && (|m| > 0 ==> m[0] != '_' && m[|m| - 1] != '_')
  {
    var lo, hi := StripUnderscoresSlice(s);
    var m := s[lo..hi];
    StripKeepsAlnums(s);
    forall i | 0 <= i < |m| - 1 ensures !(m[i] == '_' && m[i + 1] == '_') {
      assert m[i] == s[lo + i] && m[i + 1] == s[lo + i + 1];
    }
    forall i | 0 <= i < |m| ensures IsAlnum(m[i]) || m[i] == '_' {
      assert m[i] == s[lo + i];
    }
  }

  /** Lower-casing keeps the run shape and lower-cases the alphanumerics. */
  lemma LowerRuns(m: string)
    requires RunChars(m) && NoDoubleUnderscore(m)
    requires |m| > 0 ==> m[0] != '_' && m[|m| - 1] != '_'
    ensures var r := LowerStr(m);
      && (forall i :: 0 <= i < |r| ==> SlugChar(r[i]))
      && NoDoubleUnderscore(r)
      && (|r| > 0 ==> r[0] != '_' && r[|r| - 1] != '_')
      && Alnums(r) == LowerStr(Alnums(m))
      && (r == "" <==> Alnums(m) == "")
  {
    var r := LowerStr(m);
    AlnumsLower(m);
    forall i | 0 <= i < |r| - 1 ensures !(r[i] == '_' && r[i + 1] == '_') {
      assert m[i] == '_' <==> r[i] == '_';
      assert m[i + 1] == '_' <==> r[i + 1] == '_';
    }
    if |m| > 0 {
      assert IsAlnum(m[0]);
      assert Alnums(m) == [m[0]] + Alnums(m[1..]);
    }
  }

  /**
   * A slug is non-empty, made of [a-z0-9_], neither starts nor ends with
   * "_" and never has two "_" in a row. It keeps exactly the value's
   * letters and digits, lower-cased, and falls back to "entry" exactly
   * when the value has none.
   */
  lemma SlugifyShape(value: string)
    ensures var r := Slugify(value);
      && |r| > 0
      && (forall i :: 0 <= i < |r| ==> SlugChar(r[i]))
      && r[0] != '_' && r[|r| - 1] != '_'
      && NoDoubleUnderscore(r)
      && (Alnums(value) != "" ==> r == Slug(value) && Alnums(r) == LowerStr(Alnums(value)))
      && (Alnums(value) == "" ==> r == "entry")
  {
    var r := Slugify(value);
    if Alnums(value) != "" {
      SlugShape(value);
      assert r == Slug(value);
    } else {
      SlugEmpty(value);
      assert r == "entry";
      FallbackSlug();
    }
  }

  /** A value with alphanumerics slugs to a non-empty slug of lower-cased runs. */
  lemma SlugShape(value: string)
    requires Alnums(value) != ""
    ensures var r := Slug(value);
      && |r| > 0
      && (forall i :: 0 <= i < |r| ==> SlugChar(r[i]))
      && r[0] != '_' && r[|r| - 1] != '_'
      && NoDoubleUnderscore(r)
      && Alnums(r) == LowerStr(Alnums(value))
  {
    var runs := SlugRuns(value);
    var m := StripSet(runs, {'_'});
    SlugRunsSingle(value);
    SlugRunsAlnums(value);
    StripRuns(runs);
    LowerRuns(m);
  }

  /** A value without alphanumerics leaves an empty slug. */
  lemma SlugEmpty(value: string)
    requires Alnums(value) == ""
    ensures Slug(value) == ""
  {
    var runs := SlugRuns(value);
    var m := StripSet(runs, {'_'});
    SlugRunsSingle(value);
    SlugRunsAlnums(value);
    StripRuns(runs);
    LowerRuns(m);
  }

  /** The fallback "entry" is itself a slug. */
  lemma FallbackSlug()
    ensures forall i :: 0 <= i < |"entry"| ==> SlugChar("entry"[i])
    ensures NoDoubleUnderscore("entry")
  {
  }

  // ------------------------------------------------------------------
  // citation keys
  // ------------------------------------------------------------------

  /** "springer_" + the DOI's slug, or the first 40 characters of the title's slug without a DOI. */
  function KeyBase(doi: string, title: string): string
  {
    if doi != "" then "springer_" + Slugify(doi)
    else
      var slug := Slugify(title);
      "springer_" + (if |slug| <= 40 then slug else slug[..40])
  }

  /** The collision candidate f"{base}_{suffix}". */
  function Candidate(base: string, suffix: nat): string
  {
    base + "_" + NatToString(suffix)
  }

  /** Distinct suffixes give distinct candidates, none of them the base itself. */
  lemma CandidatesDistinct(base: string, m: nat, n: nat)
    ensures Candidate(base, m) != base
    ensures Candidate(base, m) == Candidate(base, n) ==> m == n
  {
    if Candidate(base, m) == Candidate(base, n) {
      var p := base + "_";
      assert NatToString(m) == Candidate(base, m)[|p|..];
      assert NatToString(n) == Candidate(base, n)[|p|..];
      ParseIntOfNat(m);
      ParseIntOfNat(n);
    }
  }

  /** t is the base or one of the candidates before the given suffix. */
  predicate Earlier(t: string, base: string, suffix: nat)
  {
    t == base || exists m :: 2 <= m < suffix && t == Candidate(base, m)
  }

  lemma SubsetSize<T>(a: set<T>, b: set<T>)
    requires a <= b
    ensures |a| <= |b|
  {
    assert b == a + (b - a);
  }

  /**
   * The collision loop of make_citation_key: the base if it is free,
   * otherwise the first free base_2, base_3, ….
   */
  method FreeKey(base: string, used: set<string>) returns (key: string)
    ensures key !in used
    ensures key == base || (base in used && exists n :: FreeAfter(base, used, n) && key == Candidate(base, n))
  {
    key := base;
    var suffix: nat := 2;
    ghost var tried: set<string> := {};
    while key in used
      invariant suffix >= 2
      invariant key == if suffix == 2 then base else Candidate(base, suffix - 1)
      invariant tried <= used && key !in tried && |tried| == suffix - 2
      invariant suffix > 2 ==> base in tried
      invariant forall m :: 2 <= m < suffix - 1 ==> Candidate(base, m) in tried
      invariant forall t :: t in tried ==> Earlier(t, base, suffix - 1)
      decreases |used| - |tried|
    {
      SubsetSize(tried + {key}, used);
      tried := tried + {key};
      var next := Candidate(base, suffix);
      forall t | t in tried ensures t != next {
        CandidatesDistinct(base, suffix, suffix);
        if t != base {
          var m :| 2 <= m < suffix && t == Candidate(base, m);
          CandidatesDistinct(base, m, suffix);
        }
      }
      key := next;
      suffix := suffix + 1;
    }
    if suffix > 2 {
      assert FreeAfter(base, used, suffix - 1);
    }
  }

  /** Suffix n is taken after every smaller suffix from 2 was found used. */
  predicate FreeAfter(base: string, used: set<string>, n: nat)
  {
    n >= 2 && forall m :: 2 <= m < n ==> Candidate(base, m) in used
  }

  /** The keys already handed out during one conversion run (the `used` set). */
  class UsedKeys {
    var used: set<string>

    constructor(initial: set<string>)
      ensures used == initial
    {
      used := initial;
    }

    /** make_citation_key: a key not used before, which is used from now on. */
    method MakeCitationKey(doi: string, title: string) returns (key: string)
      modifies this
      ensures key !in old(used)
      ensures used == old(used) + {key}
      ensures var base := KeyBase(doi, title);
        key == base || (base in old(used) && exists n :: FreeAfter(base, old(used), n) && key == Candidate(base, n))
    {
      key := FreeKey(KeyBase(doi, title), used);
      used := used + {key};
    }
  }

  // ------------------------------------------------------------------
  // entry types
  // ------------------------------------------------------------------

  /** The BibTeX types the converter can produce. */
  const EntryTypes: set<string> := {"inproceedings", "incollection", "article", "book", "misc"}

  /** The content-type keywords in the order they are checked, and the type each gives. */
  const CsvKeywords: seq<string> := ["conference", "chapter", "article", "book"]
  const CsvTypes: seq<string> := ["inproceedings", "incollection", "article", "book"]

  /** entry_type_from_csv */
  function EntryTypeFromCsv(contentType: string): (r: string)
    ensures r in EntryTypes
  {
    var lowered := LowerStr(contentType);
    if Contains(lowered, "conference") then "inproceedings"
    else if Contains(lowered, "chapter") then "incollection"
    else if Contains(lowered, "article") then "article"
    else if Contains(lowered, "book") then "book"
    else "misc"
  }

  /**
   * The type belongs to the first keyword of the table that the lower-cased
   * content type contains, and is "misc" when it contains none of them.
   */
  lemma EntryTypeFromCsvFirstMatch(contentType: string, k: nat)
    requires k < |CsvKeywords|
    requires Contains(LowerStr(contentType), CsvKeywords[k])
    requires forall j :: 0 <= j < k ==> !Contains(LowerStr(contentType), CsvKeywords[j])
    ensures EntryTypeFromCsv(contentType) == CsvTypes[k]
  {
    var l := LowerStr(contentType);
    if k == 0 {
    } else if k == 1 {
      assert !Contains(l, CsvKeywords[0]);
    } else if k == 2 {
      assert !Contains(l, CsvKeywords[0]) && !Contains(l, CsvKeywords[1]);
    } else {
      assert !Contains(l, CsvKeywords[0]) && !Contains(l, CsvKeywords[1]) && !Contains(l, CsvKeywords[2]);
    }
  }

  lemma EntryTypeFromCsvMisc(contentType: string)
    ensures EntryTypeFromCsv(contentType) == "misc" <==>
      forall k :: 0 <= k < |CsvKeywords| ==> !Contains(LowerStr(contentType), CsvKeywords[k])
  {
    var l := LowerStr(contentType);
    if forall k :: 0 <= k < |CsvKeywords| ==> !Contains(l, CsvKeywords[k]) {
      assert !Contains(l, CsvKeywords[0]) && !Contains(l, CsvKeywords[1]);
      assert !Contains(l, CsvKeywords[2]) && !Contains(l, CsvKeywords[3]);
    }
  }

  /** The Crossref work types the converter recognises. */
  const CrossrefTypes: map<string, string> := map[
    "journal-article" := "article",
    "proceedings-article" := "inproceedings",
    "book-chapter" := "incollection",
    "book" := "book",
    "posted-content" := "misc"]

  /** entry_type_from_crossref: the mapped type, or the fallback for any other type. */
  function EntryTypeFromCrossref(messageType: string, fallback: string): (r: string)
    ensures messageType !in CrossrefTypes ==> r == fallback
    ensures messageType in CrossrefTypes ==> r in EntryTypes
  {
    if messageType in CrossrefTypes then CrossrefTypes[messageType] else fallback
  }

  // ------------------------------------------------------------------
  // the Crossref record
  // ------------------------------------------------------------------

  /** A `title` or `container-title` value: a list, a plain string, or anything else. */
  datatype TextValue = ListValue(items: seq<Option<string>>) | StringValue(text: string) | OtherValue

  datatype Author = Author(given: Option<string>, family: Option<string>, name: Option<string>)

  /**
   * The parts of a Crossref work record the converter reads. `dates` maps
   * published-print, published-online, issued and created to their
   * date-parts; a missing text field is None.
   */
  datatype Message = Message(
    messageType: Option<string>,
    title: TextValue,
    authors: seq<Author>,
    dates: map<string, seq<seq<nat>>>,
    doi: Option<string>,
    url: Option<string>,
    container: TextValue,
    volume: Option<string>,
    issue: Option<string>,
    page: Option<string>,
    publisher: Option<string>,
    abstractText: Option<string>)

  /** The date keys in the order extract_year tries them. */
  const DateKeys: seq<string> := ["published-print", "published-online", "issued", "created"]

  predicate HasYear(m: Message, key: string)
  {
    key in m.dates && |m.dates[key]| > 0 && |m.dates[key][0]| > 0
  }

  /** keys[k] is the first key with a year. */
  predicate FirstYearAt(m: Message, keys: seq<string>, k: nat)
  {
    k < |keys| && HasYear(m, keys[k]) && forall j :: 0 <= j < k ==> !HasYear(m, keys[j])
  }

  function YearFrom(m: Message, keys: seq<string>): (r: string)
    ensures r == "" <==> forall k :: 0 <= k < |keys| ==> !HasYear(m, keys[k])
    ensures r != "" ==> exists k: nat :: FirstYearAt(m, keys, k) && r == NatToString(m.dates[keys[k]][0][0])
  {
    if |keys| == 0 then ""
    else if HasYear(m, keys[0]) then NatToString(m.dates[keys[0]][0][0])
    else
      var r := YearFrom(m, keys[1..]);
      assert forall k :: 1 <= k < |keys| ==> keys[k] == keys[1..][k - 1];
      if r != "" then
        ghost var k: nat :| FirstYearAt(m, keys[1..], k) && r == NatToString(m.dates[keys[1..][k]][0][0]);
        assert FirstYearAt(m, keys, k + 1);
        r
      else r
  }

  /** extract_year: the first year of the first date key that has one, as text; "" without any. */
  function ExtractYear(m: Message): (r: string)
    ensures r == "" <==> forall k :: 0 <= k < |DateKeys| ==> !HasYear(m, DateKeys[k])
    ensures r != "" ==> exists k: nat :: FirstYearAt(m, DateKeys, k) && r == NatToString(m.dates[DateKeys[k]][0][0])
  {
    YearFrom(m, DateKeys)
  }

  /** extract_title / extract_container_title: the cleaned first item of a list, or the cleaned string. */
  function FirstText(unescape: string -> string, v: TextValue): (r: string)
    ensures Collapsed(r)
    ensures v.OtherValue? || (v.ListValue? && |v.items| == 0) ==> r == ""
  {
    match v
    case ListValue(items) => if |items| > 0 then CleanText(unescape, items[0]) else ""
    case StringValue(t) => CleanText(unescape, Some(t))
    case OtherValue => ""
  }

  /** How one author is written: "Family, Given", family, given or name, or nothing. */
  function AuthorName(unescape: string -> string, a: Author): (r: Option<string>)
    ensures r.Some? ==> r.value != ""
    ensures r.None? <==> CleanText(unescape, a.given) == "" && CleanText(unescape, a.family) == "" && CleanText(unescape, a.name) == ""
  {
    var given := CleanText(unescape, a.given);
    var family := CleanText(unescape, a.family);
    var name := CleanText(unescape, a.name);
    if family != "" && given != "" then Some(family + ", " + given)
    else if family != "" then Some(family)
    else if given != "" then Some(given)
    else if name != "" then Some(name)
    else None
  }

  /** The values of the present options, in order. */
  function Somes(os: seq<Option<string>>): (r: seq<string>)
    ensures |r| <= |os|
    ensures (forall i :: 0 <= i < |os| && os[i].Some? ==> os[i].value != "") ==> forall i :: 0 <= i < |r| ==> r[i] != ""
  {
    if |os| == 0 then []
    else
      var last := os[|os| - 1];
      Somes(os[..|os| - 1]) + (if last.Some? then [last.value] else [])
  }

  /** A value is kept exactly when some position holds it. */
  lemma {:induction false} SomesMembers(os: seq<Option<string>>, s: string)
    ensures s in Somes(os) <==> exists i :: 0 <= i < |os| && os[i] == Some(s)
    decreases |os|
  {
    if |os| > 0 {
      var init := os[..|os| - 1];
      SomesMembers(init, s);
      if s in Somes(init) {
        var i :| 0 <= i < |init| && init[i] == Some(s);
        assert os[i] == init[i];
      }
      if exists i :: 0 <= i < |os| && os[i] == Some(s) {
        var i :| 0 <= i < |os| && os[i] == Some(s);
        if i < |init| {
          assert init[i] == os[i];
        }
      }
    }
  }

  /** Each author's written name, if any. */
  function NamesOf(unescape: string -> string, authors: seq<Author>): (r: seq<Option<string>>)
    ensures |r| == |authors|
    ensures forall i :: 0 <= i < |authors| ==> r[i] == AuthorName(unescape, authors[i])
  {
    seq(|authors|, i requires 0 <= i < |authors| => AuthorName(unescape, authors[i]))
  }

  /** The written names of the authors that have one, in order. */
  function AuthorNames(unescape: string -> string, authors: seq<Author>): (r: seq<string>)
    ensures |r| <= |authors|
    ensures forall i :: 0 <= i < |r| ==> r[i] != ""
  {
    Somes(NamesOf(unescape, authors))
  }

  /** Every author with a name is written, and nothing else is. */
  lemma AuthorNamesMembers(unescape: string -> string, authors: seq<Author>, s: string)
    ensures s in AuthorNames(unescape, authors) <==> exists i :: 0 <= i < |authors| && AuthorName(unescape, authors[i]) == Some(s)
  {
    SomesMembers(NamesOf(unescape, authors), s);
  }

  lemma AuthorNamesSnoc(unescape: string -> string, authors: seq<Author>, n: nat)
    requires n < |authors|
    ensures AuthorNames(unescape, authors[..n + 1])
         == AuthorNames(unescape, authors[..n]) + (if AuthorName(unescape, authors[n]).Some? then [AuthorName(unescape, authors[n]).value] else [])
  {
    var os := NamesOf(unescape, authors[..n + 1]);
    assert os[..n] == NamesOf(unescape, authors[..n]);
  }

  /** extract_authors: the written names joined by " and ". */
  method ExtractAuthors(unescape: string -> string, m: Message) returns (r: string)
    ensures r == Join(AuthorNames(unescape, m.authors), " and ")
  {
    var names: seq<string> := [];
    for i := 0 to |m.authors|
      invariant names == AuthorNames(unescape, m.authors[..i])
    {
      AuthorNamesSnoc(unescape, m.authors, i);
      var name := AuthorName(unescape, m.authors[i]);
      if name.Some? {
        names := names + [name.value];
      }
    }
    PrefixAll(m.authors);
    r := Join(names, " and ");
  }

  /** extract_crossref_abstract, with the JATS tag stripping left out. */
  function CrossrefAbstract(unescape: string -> string, m: Option<Message>): (r: string)
    ensures m.None? ==> r == ""
  {
    if m.None? then "" else CleanText(unescape, m.value.abstractText)
  }

  // ------------------------------------------------------------------
  // merge and render
  // ------------------------------------------------------------------

  /** A CSV row: column name to cell text. */
  type Row = Bib.Entry

  /**
   * The fields merge_metadata builds. booktitle and journal are None when
   * the dict has no such key; render_entry reads a missing key as "".
   */
  datatype Fields = Fields(
    title: string, author: string, booktitle: Option<string>, journal: Option<string>, series: string,
    year: string, volume: string, number: string, pages: string, publisher: string,
    doi: string, url: string, abstractText: string, contentType: string)

  /** The merged entry: its type and its fields. */
  datatype Merged = Merged(entryType: string, fields: Fields)

  /** A Crossref value when the record has a non-empty one, else the CSV value. */
  function Prefer(m: Option<Message>, fromCrossref: Message -> string, csv: string): (r: string)
    ensures m.None? ==> r == csv
    ensures m.Some? && fromCrossref(m.value) != "" ==> r == fromCrossref(m.value)
    ensures m.Some? && fromCrossref(m.value) == "" ==> r == csv
  {
    if m.Some? then Bib.OrElse(fromCrossref(m.value), csv) else csv
  }

  function MergedType(unescape: string -> string, row: Row, m: Option<Message>): (r: string)
    ensures r in EntryTypes
  {
    var csvType := EntryTypeFromCsv(Bib.Field(row, "Content Type"));
    if m.Some? then EntryTypeFromCrossref(CleanText(unescape, m.value.messageType), csvType) else csvType
  }

  function CrossrefAuthors(unescape: string -> string, x: Message): string { Join(AuthorNames(unescape, x.authors), " and ") }
  function CrossrefTitle(unescape: string -> string, x: Message): string { FirstText(unescape, x.title) }
  function CrossrefVenue(unescape: string -> string, x: Message): string { FirstText(unescape, x.container) }

  /** The abstract the merge keeps: Crossref's when it has one, else the scraped one. */
  function MergedAbstract(unescape: string -> string, m: Option<Message>, scraped: string): (r: string)
    ensures CrossrefAbstract(unescape, m) != "" ==> r == CrossrefAbstract(unescape, m)
    ensures CrossrefAbstract(unescape, m) == "" ==> r == scraped
  {
    Bib.OrElse(CrossrefAbstract(unescape, m), scraped)
  }

  /** booktitle for proceedings and collections, journal otherwise. */
  predicate UsesBooktitle(entryType: string) { entryType in {"inproceedings", "incollection"} }

  /**
   * merge_metadata: CSV values, each overridden by a non-empty Crossref
   * value; the scraped abstract only when no abstract was found; the
   * publication title as booktitle for proceedings and collections and as
   * journal otherwise.
   */
  function MergeMetadata(unescape: string -> string, row: Row, m: Option<Message>, scraped: string): (r: Merged)
    ensures r.entryType in EntryTypes
    ensures r.fields.booktitle.Some? <==> UsesBooktitle(r.entryType)
    ensures r.fields.journal.Some? <==> !UsesBooktitle(r.entryType)
    ensures r.fields.abstractText == MergedAbstract(unescape, m, scraped)
    ensures r.fields.contentType == Bib.Field(row, "Content Type")
  {
    var entryType := MergedType(unescape, row, m);
    var venue := Prefer(m, (x: Message) => CrossrefVenue(unescape, x), Bib.Field(row, "Publication Title"));
    Merged(entryType, Fields(
      title := Prefer(m, (x: Message) => CrossrefTitle(unescape, x), Bib.Field(row, "Item Title")),
      author := Prefer(m, (x: Message) => CrossrefAuthors(unescape, x), Bib.Field(row, "Authors")),
      booktitle := if UsesBooktitle(entryType) then Some(venue) else None,
      journal := if UsesBooktitle(entryType) then None else Some(venue),
      series := Bib.Field(row, "Book Series Title"),
      year := Prefer(m, ExtractYear, Bib.Field(row, "Publication Year")),
      volume := Prefer(m, (x: Message) => CleanText(unescape, x.volume), Bib.Field(row, "Journal Volume")),
      number := Prefer(m, (x: Message) => CleanText(unescape, x.issue), Bib.Field(row, "Journal Issue")),
      pages := Prefer(m, (x: Message) => CleanText(unescape, x.page), ""),
      publisher := Prefer(m, (x: Message) => CleanText(unescape, x.publisher), ""),
      doi := Prefer(m, (x: Message) => CleanText(unescape, x.doi), Bib.Field(row, "Item DOI")),
      url := Prefer(m, (x: Message) => CleanText(unescape, x.url), Bib.Field(row, "URL")),
      abstractText := MergedAbstract(unescape, m, scraped),
      contentType := Bib.Field(row, "Content Type")))
  }

  /** The publication title is the Crossref container title when there is one, else the CSV one. */
  lemma MergeVenue(unescape: string -> string, row: Row, m: Option<Message>, scraped: string)
    ensures var f := MergeMetadata(unescape, row, m, scraped).fields;
      var venue := if f.booktitle.Some? then f.booktitle.value else f.journal.value;
      && (m.Some? && FirstText(unescape, m.value.container) != "" ==> venue == FirstText(unescape, m.value.container))
      && (m.None? || FirstText(unescape, m.value.container) == "" ==> venue == Bib.Field(row, "Publication Title"))
      && f.series == Bib.Field(row, "Book Series Title")
  {
  }

  /** A non-empty Crossref title and author list override the CSV ones, empty ones do not. */
  lemma MergeTitleAuthor(unescape: string -> string, row: Row, m: Option<Message>, scraped: string)
    ensures var f := MergeMetadata(unescape, row, m, scraped).fields;
      && (m.Some? && FirstText(unescape, m.value.title) != "" ==> f.title == FirstText(unescape, m.value.title))
      && (m.None? || FirstText(unescape, m.value.title) == "" ==> f.title == Bib.Field(row, "Item Title"))
      && (m.Some? && AuthorNames(unescape, m.value.authors) != [] ==> f.author == Join(AuthorNames(unescape, m.value.authors), " and "))
      && (m.None? ==> f.author == Bib.Field(row, "Authors"))
  {
    if m.Some? && AuthorNames(unescape, m.value.authors) != [] {
      JoinNonEmpty(AuthorNames(unescape, m.value.authors), " and ");
    }
  }

  lemma {:induction false} JoinNonEmpty(parts: seq<string>, sep: string)
    requires |parts| > 0 && forall i :: 0 <= i < |parts| ==> parts[i] != ""
    ensures Join(parts, sep) != ""
    decreases |parts|
  {
    if |parts| > 1 {
      assert |Join(parts, sep)| >= |parts[0]|;
    }
  }

  /** Without a Crossref record every field comes from the CSV row; pages and publisher stay empty. */
  lemma MergeCsvOnly(unescape: string -> string, row: Row, scraped: string)
    ensures var r := MergeMetadata(unescape, row, None, scraped);
      && r.entryType == EntryTypeFromCsv(Bib.Field(row, "Content Type"))
      && r.fields.title == Bib.Field(row, "Item Title")
      && r.fields.author == Bib.Field(row, "Authors")
      && r.fields.year == Bib.Field(row, "Publication Year")
      && r.fields.doi == Bib.Field(row, "Item DOI")
      && r.fields.url == Bib.Field(row, "URL")
      && r.fields.pages == "" && r.fields.publisher == ""
      && r.fields.abstractText == scraped
  {
  }

  /** The order render_entry writes fields in. */
  const PreferredOrder: seq<string> := ["title", "author", "booktitle", "journal", "series", "year", "volume",
    "number", "pages", "publisher", "doi", "url", "abstract", "content_type"]

  /** fields.get(name, "") for a merged field that may be absent. */
  function OrEmpty(v: Option<string>): string { if v.Some? then v.value else "" }

  /** The fields in the preferred order. */
  function Ordered(f: Fields): (r: seq<BibWrite.Field>)
    ensures |r| == |PreferredOrder|
    ensures forall k :: 0 <= k < |r| ==> r[k].0 == PreferredOrder[k]
  {
    [("title", f.title), ("author", f.author), ("booktitle", OrEmpty(f.booktitle)), ("journal", OrEmpty(f.journal)),
     ("series", f.series), ("year", f.year), ("volume", f.volume), ("number", f.number), ("pages", f.pages),
     ("publisher", f.publisher), ("doi", f.doi), ("url", f.url), ("abstract", f.abstractText),
     ("content_type", f.contentType)]
  }

  /** render_entry */
  method RenderEntry(entryType: string, key: string, fields: Fields) returns (text: string)
    ensures text == BibWrite.Render(entryType, key, Ordered(fields))
  {
    text := BibWrite.RenderEntry(entryType, key, Ordered(fields));
  }

  /** Only preferred-order fields with a non-empty value are written, in that order. */
  lemma RenderedFields(fields: Fields, f: BibWrite.Field)
    ensures f in BibWrite.NonEmpty(Ordered(fields)) ==> f.0 in PreferredOrder && f.1 != ""
  {
    BibWrite.NonEmptyMembers(Ordered(fields), f);
    if f in Ordered(fields) {
      var k :| 0 <= k < |Ordered(fields)| && Ordered(fields)[k] == f;
      assert f.0 == PreferredOrder[k];
    }
  }
}
