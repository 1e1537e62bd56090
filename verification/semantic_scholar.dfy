/**
 * The Semantic Scholar fetch script: venue and query matching, cite keys,
 * the BibTeX rendering of one paper, and the collection step of its main
 * routine (first paper per id, venue and year filter, sort by year and
 * title). The bulk-search responses are inputs.
 */
module SemanticScholar {
  import opened Wrappers
  import opened Text
  import opened Perm
  import BibWrite

  /** The parts of a Semantic Scholar paper record the script reads; a missing text field is None. */
  datatype Paper = Paper(
    paperId: Option<string>,
    title: Option<string>,
    abstractText: Option<string>,
    year: Option<int>,
    venue: Option<string>,
    authorNames: seq<string>,
    doi: string,
    dblp: string,
    pdfUrl: string)

  /** Python `value or ""` on an optional string. */
  function OrEmpty(v: Option<string>): string { if v.Some? then v.value else "" }

  /** Python str(i) for an integer. */
  function IntToString(i: int): (r: string)
    ensures |r| > 0
  {
    if i < 0 then "-" + NatToString(-i) else NatToString(i)
  }

  // ------------------------------------------------------------------
  // matching
  // ------------------------------------------------------------------

  const Q1Terms: seq<string> := ["decompilation", "decompiler", "decompiling", "decompile", "reverse compilation", "reverse compiler"]
  const Q2RecoveryTerms: seq<string> := ["source code recovery", "source recovery", "binary-to-source", "binary to source",
    "binary lifting", "instruction lifting", "lifting to IR", "lifting to LLVM", "assembly-to-C", "assembly to C",
    "program reconstruction"]
  const Q2BinaryTerms: seq<string> := ["binary code", "machine code", "assembly code", "executable", "disassembly",
    "disassembler", "bytecode", "binary analysis", "stripped binary"]

  /** Some term occurs in the text, both lower-cased. */
  predicate HasTerm(text: string, terms: seq<string>)
  {
    exists k :: 0 <= k < |terms| && Contains(LowerStr(text), LowerStr(terms[k]))
  }

  /** The test as the script evaluates it, over the lower-cased terms. */
  function ContainsTerm(text: string, terms: seq<string>): (b: bool)
    ensures b <==> HasTerm(text, terms)
  {
    ContainsAny(LowerStr(text), Map(LowerStr, terms))
  }

  /** text_contains_any: the loop that stops at the first term found. */
  method TextContainsAny(text: string, terms: seq<string>) returns (b: bool)
    ensures b <==> HasTerm(text, terms)
  {
    var lowered := LowerStr(text);
    for k := 0 to |terms|
      invariant forall j :: 0 <= j < k ==> !Contains(lowered, LowerStr(terms[j]))
    {
      if Contains(lowered, LowerStr(terms[k])) {
        return true;
      }
    }
    return false;
  }

  /** matches_venue: some alias occurs in the venue, both lower-cased; a missing venue is "". */
  function MatchesVenue(p: Paper, aliases: seq<string>): (b: bool)
    ensures b <==> HasTerm(OrEmpty(p.venue), aliases)
  {
    ContainsTerm(OrEmpty(p.venue), aliases)
  }

  /** f"{title} {abstract}" */
  function Combined(p: Paper): string
  {
    OrEmpty(p.title) + " " + OrEmpty(p.abstractText)
  }

  /** matches_q1 */
  function MatchesQ1(p: Paper): (b: bool)
    ensures b <==> HasTerm(Combined(p), Q1Terms)
  {
    ContainsTerm(Combined(p), Q1Terms)
  }

  /** matches_q2: both a recovery term and a binary term. */
  function MatchesQ2(p: Paper): (b: bool)
    ensures b <==> HasTerm(Combined(p), Q2RecoveryTerms) && HasTerm(Combined(p), Q2BinaryTerms)
  {
    ContainsTerm(Combined(p), Q2RecoveryTerms) && ContainsTerm(Combined(p), Q2BinaryTerms)
  }

  lemma ContainsLeft(x: string, y: string, needle: string)
    requires Contains(x, needle)
    ensures Contains(x + y, needle)
  {
    var i :| 0 <= i <= |x| && needle <= x[i..];
    assert forall j :: 0 <= j < |needle| ==> (x + y)[i..][j] == x[i..][j];
    assert (x + y)[i..][..|needle|] == needle;
  }

  lemma ContainsRight(x: string, y: string, needle: string)
    requires Contains(y, needle)
    ensures Contains(x + y, needle)
  {
    var i :| 0 <= i <= |y| && needle <= y[i..];
    assert (x + y)[|x| + i..] == y[i..];
  }

  /** A term found in the title alone, or in the abstract alone, is found by the match. */
  lemma TermInTitleOrAbstract(p: Paper, terms: seq<string>, k: nat)
    requires k < |terms|
    requires Contains(LowerStr(OrEmpty(p.title)), LowerStr(terms[k])) || Contains(LowerStr(OrEmpty(p.abstractText)), LowerStr(terms[k]))
    ensures HasTerm(Combined(p), terms)
  {
    var t := OrEmpty(p.title);
    var a := OrEmpty(p.abstractText);
    var needle := LowerStr(terms[k]);
    LowerStrConcat(t + " ", a);
    LowerStrConcat(t, " ");
    if Contains(LowerStr(t), needle) {
      ContainsLeft(LowerStr(t), LowerStr(" "), needle);
      ContainsLeft(LowerStr(t + " "), LowerStr(a), needle);
    } else {
      ContainsRight(LowerStr(t + " "), LowerStr(a), needle);
    }
    assert Combined(p) == t + " " + a;
  }

  // ------------------------------------------------------------------
  // cite keys
  // ------------------------------------------------------------------

  /** Length of the leading run of ASCII letters. */
  function AlphaLen(s: string): (n: nat)
    ensures 0 < |s| && IsAlpha(s[0]) ==> n > 0
    ensures n <= |s|
    ensures forall i :: 0 <= i < n ==> IsAlpha(s[i])
  {
    if |s| == 0 || !IsAlpha(s[0]) then 0 else 1 + AlphaLen(s[1..])
  }

  /** re.findall(r"[A-Za-z]+", s): the maximal runs of ASCII letters. */
  function AlphaWords(s: string): (r: seq<string>)
    ensures forall i :: 0 <= i < |r| ==> |r[i]| > 0 && forall j :: 0 <= j < |r[i]| ==> IsAlpha(r[i][j])
    decreases |s|
  {
    if |s| == 0 then []
    else if !IsAlpha(s[0]) then AlphaWords(s[1..])
    else
      var n := AlphaLen(s);
      var rest := AlphaWords(s[n..]);
      assert forall i :: 1 <= i < |rest| + 1 ==> ([s[..n]] + rest)[i] == rest[i - 1];
      [s[..n]] + rest
  }

  /** re.sub(r"[^a-zA-Z]", "", s) */
  function LettersOnly(s: string): (r: string)
    ensures forall i :: 0 <= i < |r| ==> IsAlpha(r[i])
  {
    if |s| == 0 then ""
    else
      var rest := LettersOnly(s[1..]);
      if IsAlpha(s[0]) then
        assert forall i :: 1 <= i < |rest| + 1 ==> ([s[0]] + rest)[i] == rest[i - 1];
        [s[0]] + rest
      else rest
  }

  /** The letters of the first author's last name token: "" without authors, "Unknown" for a blank name. */
  function FirstAuthorPart(p: Paper): (r: string)
    ensures forall i :: 0 <= i < |r| ==> IsAlpha(r[i])
  {
    if |p.authorNames| == 0 then ""
    else
      var parts := Words(p.authorNames[0]);
      LettersOnly(if |parts| > 0 then parts[|parts| - 1] else "Unknown")
  }

  /** `paper.get("year") or ""` in a string: nothing for a missing year or year 0. */
  function YearText(y: Option<int>): string
  {
    if y.None? || y.value == 0 then "" else IntToString(y.value)
  }

  const SkipWords: set<string> := {"a", "an", "the", "of", "for", "and", "in", "on", "to", "with", "using", "via", "from"}

  /** A stop word of the short title, compared lower-cased. */
  predicate IsSkip(w: string)
  {
    LowerStr(w) in SkipWords
  }

  /** words[i] is not a stop word and every word before it is one. */
  predicate FirstKept(words: seq<string>, i: nat)
    requires i < |words|
  {
    !IsSkip(words[i]) && forall j :: 0 <= j < i ==> IsSkip(words[j])
  }

  /** The first title word that is not a stop word once lower-cased, or "". */
  function ShortTitle(words: seq<string>): string
  {
    if |words| == 0 then ""
    else if !IsSkip(words[0]) then words[0]
    else ShortTitle(words[1..])
  }

  /** The short title is empty exactly when every word is a stop word (words are never empty). */
  lemma {:induction false} ShortTitleEmpty(words: seq<string>)
    requires forall i :: 0 <= i < |words| ==> |words[i]| > 0
    ensures ShortTitle(words) == "" <==> forall i :: 0 <= i < |words| ==> IsSkip(words[i])
  {
    if |words| > 0 && IsSkip(words[0]) {
      ShortTitleEmpty(words[1..]);
      assert forall i :: 1 <= i < |words| ==> words[i] == words[1..][i - 1];
    }
  }

  /** A non-empty short title is the first word that is not a stop word. */
  lemma {:induction false} ShortTitleFirst(words: seq<string>)
    requires ShortTitle(words) != ""
    ensures exists i :: 0 <= i < |words| && ShortTitle(words) == words[i] && FirstKept(words, i)
  {
    if !IsSkip(words[0]) {
      assert FirstKept(words, 0);
    } else {
      ShortTitleFirst(words[1..]);
      var i :| 0 <= i < |words[1..]| && ShortTitle(words[1..]) == words[1..][i] && FirstKept(words[1..], i);
      assert ShortTitle(words) == words[i + 1] && FirstKept(words, i + 1);
    }
  }

  /** The cite key: author letters, year, short title word. */
  function CiteKey(p: Paper): string
  {
    FirstAuthorPart(p) + YearText(p.year) + ShortTitle(AlphaWords(OrEmpty(p.title)))
  }

  /** make_cite_key: the title-word loop stops at the first word that is not a stop word. */
  method MakeCiteKey(p: Paper) returns (key: string)
    ensures key == CiteKey(p)
  {
    var words := AlphaWords(OrEmpty(p.title));
    var shortTitle := "";
    var k := 0;
    while k < |words|
      invariant k <= |words|
      invariant ShortTitle(words) == ShortTitle(words[k..])
    {
      if LowerStr(words[k]) !in SkipWords {
        assert !IsSkip(words[k]);
        shortTitle := words[k];
        break;
      }
      assert words[k..][1..] == words[k + 1..];
      k := k + 1;
    }
    if k == |words| {
      shortTitle := ShortTitle(words[k..]);
    }
    key := FirstAuthorPart(p) + YearText(p.year) + shortTitle;
  }

  // ------------------------------------------------------------------
  // BibTeX rendering
  // ------------------------------------------------------------------

  /** The url field: the open-access PDF, else the DOI link, else none. */
  function UrlField(p: Paper): (r: seq<BibWrite.Field>)
    ensures |r| <= 1
    ensures p.pdfUrl != "" ==> r == [("url", p.pdfUrl)]
    ensures p.pdfUrl == "" && p.doi != "" ==> r == [("url", "https://doi.org/" + p.doi)]
    ensures p.pdfUrl == "" && p.doi == "" ==> r == []
  {
    if p.pdfUrl != "" then [("url", p.pdfUrl)]
    else if p.doi != "" then [("url", "https://doi.org/" + p.doi)]
    else []
  }

  /** The fields of paper_to_bibtex in their order; empty ones are dropped by the layout. */
  function PaperFields(p: Paper): seq<BibWrite.Field>
  {
    [("title", OrEmpty(p.title)),
     ("author", Join(p.authorNames, " and ")),
     ("abstract", OrEmpty(p.abstractText)),
     ("year", YearText(p.year)),
     ("venue", OrEmpty(p.venue)),
     ("doi", p.doi),
     ("dblp", p.dblp),
     ("semantic_scholar_id", OrEmpty(p.paperId))] + UrlField(p)
  }

  /** paper_to_bibtex: always an @inproceedings entry under the cite key. */
  method PaperToBibtex(p: Paper) returns (text: string)
    ensures text == BibWrite.Render("inproceedings", CiteKey(p), PaperFields(p))
  {
    var key := MakeCiteKey(p);
    text := BibWrite.RenderEntry("inproceedings", key, PaperFields(p));
  }

  /** A url line is written exactly when the paper has an open-access PDF or a DOI, and holds the preferred one. */
  lemma RenderedUrl(p: Paper, u: string)
    ensures ("url", u) in BibWrite.NonEmpty(PaperFields(p)) <==>
      (p.pdfUrl != "" && u == p.pdfUrl) || (p.pdfUrl == "" && p.doi != "" && u == "https://doi.org/" + p.doi)
  {
    BibWrite.NonEmptyMembers(PaperFields(p), ("url", u));
    var fs := PaperFields(p);
    if ("url", u) in fs {
      var k :| 0 <= k < |fs| && fs[k] == ("url", u);
      assert k == 8;
    }
    if p.pdfUrl != "" || p.doi != "" {
      assert fs[8] == UrlField(p)[0];
    }
  }

  // ------------------------------------------------------------------
  // collection
  // ------------------------------------------------------------------

  /** A paper the dedup can key: a non-empty id. */
  predicate HasId(p: Paper) { p.paperId.Some? && p.paperId.value != "" }

  /** The ids of the papers kept so far. */
  function Ids(ps: seq<Paper>): set<string>
  {
    set p | p in ps && HasId(p) :: p.paperId.value
  }

  /** The first paper per id, in the order the ids were first seen (the all_papers dict). */
  function Unique(fetched: seq<Paper>): (r: seq<Paper>)
  {
    if |fetched| == 0 then []
    else
      var n := |fetched| - 1;
      var before := Unique(fetched[..n]);
      var p := fetched[n];
      before + (if HasId(p) && p.paperId.value !in Ids(before) then [p] else [])
  }

  /** Every kept paper has an id and is one of the fetched papers. */
  lemma {:induction false} UniqueFrom(fetched: seq<Paper>)
    ensures forall i :: 0 <= i < |Unique(fetched)| ==> HasId(Unique(fetched)[i]) && Unique(fetched)[i] in fetched
    decreases |fetched|
  {
    if |fetched| > 0 {
      var n := |fetched| - 1;
      var before := Unique(fetched[..n]);
      UniqueFrom(fetched[..n]);
      var r := Unique(fetched);
      forall i | 0 <= i < |r| ensures HasId(r[i]) && r[i] in fetched {
        if i < |before| {
          assert r[i] == before[i];
          assert before[i] in fetched[..n];
        }
      }
    }
  }

  /** No id is kept twice. */
  lemma {:induction false} UniqueDistinct(fetched: seq<Paper>)
    ensures forall i, j :: 0 <= i < j < |Unique(fetched)| ==> Unique(fetched)[i].paperId != Unique(fetched)[j].paperId
    decreases |fetched|
  {
    if |fetched| > 0 {
      var n := |fetched| - 1;
      var before := Unique(fetched[..n]);
      UniqueDistinct(fetched[..n]);
      UniqueFrom(fetched[..n]);
      var r := Unique(fetched);
      forall i, j | 0 <= i < j < |r| ensures r[i].paperId != r[j].paperId {
        if j == |before| {
          assert r[i] == before[i] && r[i] in before;
        }
      }
    }
  }

  /** The kept ids are exactly the fetched ids. */
  lemma {:induction false} UniqueIds(fetched: seq<Paper>)
    ensures Ids(Unique(fetched)) == Ids(fetched)
    decreases |fetched|
  {
    if |fetched| > 0 {
      var n := |fetched| - 1;
      var before := Unique(fetched[..n]);
      UniqueIds(fetched[..n]);
      var p := fetched[n];
      assert fetched == fetched[..n] + [p];
      assert Ids(fetched) == Ids(fetched[..n]) + (if HasId(p) then {p.paperId.value} else {});
      assert Ids(Unique(fetched)) == Ids(before) + (if HasId(p) && p.paperId.value !in Ids(before) then {p.paperId.value} else {});
    }
  }

  /** The kept paper for an id is the first fetched paper with that id. */
  lemma {:induction false} UniqueKeepsFirst(fetched: seq<Paper>, i: nat, k: nat)
    requires i < |Unique(fetched)| && k < |fetched|
    requires HasId(fetched[k]) && fetched[k].paperId == Unique(fetched)[i].paperId
    ensures exists j :: 0 <= j <= k && fetched[j] == Unique(fetched)[i]
    decreases |fetched|
  {
    var n := |fetched| - 1;
    var before := Unique(fetched[..n]);
    var r := Unique(fetched);
    UniqueFrom(fetched[..n]);
    UniqueIds(fetched[..n]);
    if i < |before| {
      assert r[i] == before[i];
      if k < n {
        assert fetched[..n][k] == fetched[k];
        UniqueKeepsFirst(fetched[..n], i, k);
        var j :| 0 <= j <= k && fetched[..n][j] == before[i];
        assert fetched[j] == r[i];
      } else {
        var j :| 0 <= j < n && fetched[..n][j] == before[i] by {
          assert before[i] in fetched[..n];
        }
        assert fetched[j] == r[i];
      }
    } else {
      assert r[i] == fetched[n];
      assert fetched[n] == r[i];
    }
  }

  /** The dedup loop of main, over the papers of the successful searches in order. */
  method CollectPapers(fetched: seq<Paper>) returns (papers: seq<Paper>)
    ensures papers == Unique(fetched)
  {
    papers := [];
    var seen: set<string> := {};
    for i := 0 to |fetched|
      invariant papers == Unique(fetched[..i])
      invariant seen == Ids(papers)
    {
      assert fetched[..i + 1][..i] == fetched[..i];
      var p := fetched[i];
      if p.paperId.Some? && p.paperId.value != "" && p.paperId.value !in seen {
        papers := papers + [p];
        seen := seen + {p.paperId.value};
      }
    }
    PrefixAll(fetched);
  }

  /** Python truthiness of an optional year: present and non-zero. */
  predicate Truthy(y: Option<int>) { y.Some? && y.value != 0 }

  /** The year bounds: a missing or zero bound, and a missing or zero year, always pass. */
  predicate InYearRange(p: Paper, yearMin: Option<int>, yearMax: Option<int>)
  {
    && !(Truthy(yearMin) && Truthy(p.year) && p.year.value < yearMin.value)
    && !(Truthy(yearMax) && Truthy(p.year) && p.year.value > yearMax.value)
  }

  predicate Selected(p: Paper, aliases: seq<string>, yearMin: Option<int>, yearMax: Option<int>)
  {
    MatchesVenue(p, aliases) && InYearRange(p, yearMin, yearMax)
  }

  /** The venue papers: the papers of the venue within the year bounds, in order. */
  function VenuePapers(papers: seq<Paper>, aliases: seq<string>, yearMin: Option<int>, yearMax: Option<int>): (r: seq<Paper>)
    ensures |r| <= |papers|
  {
    Filter(p => Selected(p, aliases, yearMin, yearMax), papers)
  }

  /** The venue loop of main. */
  method FilterVenue(papers: seq<Paper>, aliases: seq<string>, yearMin: Option<int>, yearMax: Option<int>) returns (selected: seq<Paper>)
    ensures selected == VenuePapers(papers, aliases, yearMin, yearMax)
  {
    selected := [];
    for i := 0 to |papers|
      invariant selected == VenuePapers(papers[..i], aliases, yearMin, yearMax)
    {
      FilterSnoc(p => Selected(p, aliases, yearMin, yearMax), papers, i);
      var p := papers[i];
      if !MatchesVenue(p, aliases) {
        continue;
      }
      if Truthy(yearMin) && Truthy(p.year) && p.year.value < yearMin.value {
        continue;
      }
      if Truthy(yearMax) && Truthy(p.year) && p.year.value > yearMax.value {
        continue;
      }
      selected := selected + [p];
    }
    PrefixAll(papers);
  }

  /** The query test main applies: q1 or q2. */
  predicate Matches(p: Paper, q1: bool)
  {
    if q1 then MatchesQ1(p) else MatchesQ2(p)
  }

  /** The papers that match the query. */
  function Matched(papers: seq<Paper>, q1: bool): (r: seq<Paper>)
    ensures |r| <= |papers|
  {
    Filter(p => Matches(p, q1), papers)
  }

  // ------------------------------------------------------------------
  // sorting by (year or 0, title or "")
  // ------------------------------------------------------------------

  function YearKey(p: Paper): int { if p.year.Some? then p.year.value else 0 }

  predicate KeyLt(a: Paper, b: Paper)
  {
    YearKey(a) < YearKey(b) || (YearKey(a) == YearKey(b) && StrLt(OrEmpty(a.title), OrEmpty(b.title)))
  }

  lemma KeyLtTransitive(a: Paper, b: Paper, c: Paper)
    requires KeyLt(a, b) && KeyLt(b, c)
    ensures KeyLt(a, c)
  {
    if YearKey(a) == YearKey(b) == YearKey(c) {
      StrLtTransitive(OrEmpty(a.title), OrEmpty(b.title), OrEmpty(c.title));
    }
  }

  predicate SortedByKey(s: seq<Paper>)
  {
    forall p, q :: 0 <= p < q < |s| ==> !KeyLt(s[q], s[p])
  }

  /** Insert after every paper whose key is not greater, which keeps equal keys in arrival order. */
  function Insert(x: Paper, s: seq<Paper>): (r: seq<Paper>)
    ensures multiset(r) == multiset(s) + multiset{x}
  {
    if |s| == 0 then [x]
    else if KeyLt(x, s[0]) then [x] + s
    else
      assert s == [s[0]] + s[1..];
      [s[0]] + Insert(x, s[1..])
  }

  lemma {:induction false} InsertSorted(x: Paper, s: seq<Paper>)
    requires SortedByKey(s)
    ensures SortedByKey(Insert(x, s))
    decreases |s|
  {
    if |s| > 0 {
      if KeyLt(x, s[0]) {
        var r := [x] + s;
        forall q | 1 <= q < |r| ensures !KeyLt(r[q], x) {
          assert r[q] == s[q - 1];
          if q > 1 { assert !KeyLt(s[q - 1], s[0]); }
          if KeyLt(r[q], x) { KeyLtTransitive(r[q], x, s[0]); StrLtIrreflexive(OrEmpty(s[0].title)); }
        }
        forall p, q | 1 <= p < q < |r| ensures !KeyLt(r[q], r[p]) {
          assert r[q] == s[q - 1] && r[p] == s[p - 1];
        }
      } else {
        InsertSorted(x, s[1..]);
        var t := Insert(x, s[1..]);
        forall q | 0 <= q < |t| ensures !KeyLt(t[q], s[0]) {
          assert t[q] in multiset(t);
          assert t[q] in multiset(s[1..]) || t[q] == x;
          if t[q] != x {
            var j :| 0 <= j < |s[1..]| && s[1..][j] == t[q];
            assert s[j + 1] == t[q];
          }
        }
      }
    }
  }

  /** matched.sort(key=(year or 0, title or "")) */
  function SortPapers(s: seq<Paper>): (r: seq<Paper>)
    ensures multiset(r) == multiset(s)
    ensures SortedByKey(r)
  {
    if |s| == 0 then []
    else
      assert s == s[..|s| - 1] + [s[|s| - 1]];
      var t := SortPapers(s[..|s| - 1]);
      InsertSorted(s[|s| - 1], t);
      Insert(s[|s| - 1], t)
  }

  lemma SortedMembers(s: seq<Paper>, p: Paper)
    ensures p in SortPapers(s) <==> p in s
  {
    assert p in SortPapers(s) <==> p in multiset(SortPapers(s));
  }

  /** The papers written for one (query, venue) pair. */
  function QueryOutput(fetched: seq<Paper>, aliases: seq<string>, yearMin: Option<int>, yearMax: Option<int>, q1: bool): seq<Paper>
  {
    SortPapers(Matched(VenuePapers(Unique(fetched), aliases, yearMin, yearMax), q1))
  }

  /**
   * A paper is written for a (query, venue) pair exactly when it is the
   * first fetched paper with its id, matches the venue, the year bounds and
   * the query; the output is sorted by year, then title.
   */
  lemma QueryOutputMembers(fetched: seq<Paper>, aliases: seq<string>, yearMin: Option<int>, yearMax: Option<int>, q1: bool, p: Paper)
    ensures var out := QueryOutput(fetched, aliases, yearMin, yearMax, q1);
      && SortedByKey(out)
      && (p in out <==> p in Unique(fetched) && Selected(p, aliases, yearMin, yearMax) && Matches(p, q1))
  {
    var sel := x => Selected(x, aliases, yearMin, yearMax);
    var mat := x => Matches(x, q1);
    var venue := Filter(sel, Unique(fetched));
    SortedMembers(Filter(mat, venue), p);
    FilterMembers(mat, venue, p);
    FilterMembers(sel, Unique(fetched), p);
    assert mat(p) == Matches(p, q1) && sel(p) == Selected(p, aliases, yearMin, yearMax);
    assert QueryOutput(fetched, aliases, yearMin, yearMax, q1) == SortPapers(Filter(mat, venue));
  }
}
