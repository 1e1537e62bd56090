/**
 * The title-and-abstract extractor (scripts/bibtex_extractor/extract_title_abstract.py).
 *
 * Entry heads `@type{key,` are found left to right without overlap; each
 * entry's text runs up to the next head; the title (not booktitle) and the
 * abstract are taken by a lazy `field = {...}` match whose closing brace must
 * be followed by another field or the closing brace of the entry; the
 * result is rendered as numbered Markdown sections. Reading and writing the
 * files is left to the caller.
 */
module BibtexExtract {
  import opened Wrappers
  import opened Text

  // ------------------------------------------------------------------
  // clean_text
  // ------------------------------------------------------------------

  const NewlineTab: set<char> := {'\n', '\t'}

  /** re.sub(r'[cs]+', ' ', s): every maximal run of characters from cs becomes one space. */
  function SubRuns(s: string, cs: set<char>): (r: string)
    ensures |s| > 0 ==> |r| > 0 && r[0] == (if s[0] in cs then ' ' else s[0])
    decreases |s|
  {
    if |s| == 0 then ""
    else if s[0] in cs then
      StripStartFacts(s, cs);
      " " + SubRuns(StripStart(s, cs), cs)
    else [s[0]] + SubRuns(s[1..], cs)
  }

  /** Every white-space character is a plain space, and no two white-space characters are adjacent. */
  predicate SpacedOut(s: string)
  {
    && (forall i :: 0 <= i < |s| ==> IsSpace(s[i]) ==> s[i] == ' ')
    && (forall i :: 0 <= i < |s| - 1 ==> !(IsSpace(s[i]) && IsSpace(s[i + 1])))
  }

  /** Replacing the white-space runs leaves a spaced-out text. */
  lemma {:induction false} SubRunsSpacedOut(s: string)
    ensures SpacedOut(SubRuns(s, Whitespace))
    decreases |s|
  {
    if |s| > 0 {
      var r := SubRuns(s, Whitespace);
      if s[0] in Whitespace {
        var u := StripStart(s, Whitespace);
        StripStartFacts(s, Whitespace);
        SubRunsSpacedOut(u);
        var rest := SubRuns(u, Whitespace);
        assert r == " " + rest;
        forall i | 0 <= i < |r| ensures IsSpace(r[i]) ==> r[i] == ' ' {
          if i > 0 { assert r[i] == rest[i - 1]; }
        }
        forall i | 0 <= i < |r| - 1 ensures !(IsSpace(r[i]) && IsSpace(r[i + 1])) {
          assert r[i + 1] == rest[i];
          if i > 0 { assert r[i] == rest[i - 1]; }
        }
      } else {
        SubRunsSpacedOut(s[1..]);
        var rest := SubRuns(s[1..], Whitespace);
        assert r == [s[0]] + rest;
        forall i | 0 <= i < |r| ensures IsSpace(r[i]) ==> r[i] == ' ' {
          if i > 0 { assert r[i] == rest[i - 1]; }
        }
        forall i | 0 <= i < |r| - 1 ensures !(IsSpace(r[i]) && IsSpace(r[i + 1])) {
          assert r[i + 1] == rest[i];
          if i > 0 { assert r[i] == rest[i - 1]; }
        }
      }
    }
  }

  /** Stripping a spaced-out text leaves a collapsed one. */
  lemma StripSpacedOut(y: string)
    requires SpacedOut(y)
    ensures Collapsed(Strip(y))
  {
    var t := StripStart(y, Whitespace);
    StripStartFacts(y, Whitespace);
    StripEndFacts(t, Whitespace);
    StripIsStartThenEnd(y);
    var r := Strip(y);
    var a := |y| - |t|;
    assert forall i :: 0 <= i < |r| ==> r[i] == y[a + i];
  }

  /** clean_text: newline and tab runs to spaces, then white-space runs to single spaces, then stripped. */
  function CleanText(text: string): (r: string)
    ensures Collapsed(r)
  {
    var spaced := SubRuns(SubRuns(text, NewlineTab), Whitespace);
    SubRunsSpacedOut(SubRuns(text, NewlineTab));
    StripSpacedOut(spaced);
    Strip(spaced)
  }

  lemma {:induction false} SubRunsNone(s: string, cs: set<char>)
    requires forall i :: 0 <= i < |s| ==> s[i] !in cs
    ensures SubRuns(s, cs) == s
    decreases |s|
  {
    if |s| > 0 {
      SubRunsNone(s[1..], cs);
    }
  }

  lemma {:induction false} SubRunsSpacedOutFixed(s: string)
    requires SpacedOut(s)
    ensures SubRuns(s, Whitespace) == s
    decreases |s|
  {
    if |s| > 0 {
      assert SpacedOut(s[1..]) by {
        assert forall i :: 0 <= i < |s| - 1 ==> s[1..][i] == s[i + 1];
      }
      SubRunsSpacedOutFixed(s[1..]);
      if s[0] in Whitespace {
        assert s[0] == ' ';
        assert StripStart(s, Whitespace) == s[1..] by {
          if |s| > 1 { assert !IsSpace(s[1]); }
        }
      }
    }
  }

  /** A collapsed text is left as it is: clean_text is idempotent. */
  lemma CleanTextFixesCollapsed(s: string)
    requires Collapsed(s)
    ensures CleanText(s) == s
  {
    SubRunsNone(s, NewlineTab);
    SubRunsSpacedOutFixed(s);
    StripStartNone(s, Whitespace);
    StripEndNone(s, Whitespace);
  }

  lemma CleanTextIdempotent(text: string)
    ensures CleanText(CleanText(text)) == CleanText(text)
  {
    CleanTextFixesCollapsed(CleanText(text));
  }

  // ------------------------------------------------------------------
  // Character runs
  // ------------------------------------------------------------------

  /** The length of the run of word characters (`\w`) starting at i. */
  function WordRun(s: string, i: nat): (n: nat)
    requires i <= |s|
    ensures i + n <= |s|
    ensures forall k :: i <= k < i + n ==> IsWordChar(s[k])
    ensures i + n < |s| ==> !IsWordChar(s[i + n])
    decreases |s| - i
  {
    if i < |s| && IsWordChar(s[i]) then 1 + WordRun(s, i + 1) else 0
  }

  /** The length of the run of white space (`\s`) starting at i. */
  function SpaceRun(s: string, i: nat): (n: nat)
    requires i <= |s|
    ensures i + n <= |s|
    ensures forall k :: i <= k < i + n ==> IsSpace(s[k])
    ensures i + n < |s| ==> !IsSpace(s[i + n])
    decreases |s| - i
  {
    if i < |s| && IsSpace(s[i]) then 1 + SpaceRun(s, i + 1) else 0
  }

  // ------------------------------------------------------------------
  // Entry heads: `@(\w+)\s*\{([^,]+),`
  // ------------------------------------------------------------------

  /** One match of the entry pattern: where it starts and ends, the type, and the raw key. */
  datatype Head = Head(start: nat, entryType: string, key: string, end: nat)

  /** The entry pattern matched at position p. */
  function HeadAt(content: string, p: nat): (r: Option<Head>)
    ensures r.Some? ==> r.value.start == p && p < r.value.end <= |content|
    ensures r.Some? ==> |r.value.entryType| > 0 && |r.value.key| > 0 && ',' !in r.value.key
    ensures r.Some? ==> content[p] == '@' && content[r.value.end - 1] == ','
  {
    if p >= |content| || content[p] != '@' then None
    else
      var w := WordRun(content, p + 1);
      var j := p + 1 + w;
      var k := j + SpaceRun(content, j);
      if w == 0 || k >= |content| || content[k] != '{' then None
      else
        match IndexOf(content[k + 1..], ',')
        case None => None
        case Some(c) =>
          if c == 0 then None
          else
            assert content[k + 1..][..c] == content[k + 1..k + 1 + c];
            Some(Head(p, content[p + 1..j], content[k + 1..k + 1 + c], k + 2 + c))
  }

  /** A matcher reports, for a position, the match starting there, which ends after it. */
  ghost predicate Advances(m: nat -> Option<Head>)
  {
    forall p: nat :: m(p).Some? ==> m(p).value.start == p < m(p).value.end
  }

  /** finditer over a matcher on a text of length n: matches left to right, each search resuming where the last ended. */
  function Scan(m: nat -> Option<Head>, n: nat, i: nat): (r: seq<Head>)
    requires Advances(m)
    decreases n - i
  {
    if i >= n then []
    else
      match m(i)
      case Some(h) => [h] + Scan(m, n, h.end)
      case None => Scan(m, n, i + 1)
  }

  lemma {:induction false} ScanMatches(m: nat -> Option<Head>, n: nat, i: nat, k: nat)
    requires Advances(m) && k < |Scan(m, n, i)|
    ensures i <= Scan(m, n, i)[k].start < n
    ensures m(Scan(m, n, i)[k].start) == Some(Scan(m, n, i)[k])
    decreases n - i
  {
    match m(i)
    case Some(h) =>
      var rest := Scan(m, n, h.end);
      assert Scan(m, n, i) == [h] + rest;
      if k > 0 {
        ScanMatches(m, n, h.end, k - 1);
        assert Scan(m, n, i)[k] == rest[k - 1];
      }
    case None =>
      ScanMatches(m, n, i + 1, k);
  }

  lemma {:induction false} ScanInOrder(m: nat -> Option<Head>, n: nat, i: nat, k: nat)
    requires Advances(m) && k + 1 < |Scan(m, n, i)|
    ensures Scan(m, n, i)[k].end <= Scan(m, n, i)[k + 1].start
    decreases n - i
  {
    match m(i)
    case Some(h) =>
      var rest := Scan(m, n, h.end);
      assert Scan(m, n, i) == [h] + rest;
      if k == 0 {
        ScanMatches(m, n, h.end, 0);
        assert Scan(m, n, i)[1] == rest[0];
      } else {
        ScanInOrder(m, n, h.end, k - 1);
        assert Scan(m, n, i)[k] == rest[k - 1] && Scan(m, n, i)[k + 1] == rest[k];
      }
    case None =>
      ScanInOrder(m, n, i + 1, k);
  }

  lemma {:induction false} ScanMissesNothing(m: nat -> Option<Head>, n: nat, i: nat, p: nat)
    requires Advances(m) && i <= p < n && m(p).Some?
    ensures exists k :: 0 <= k < |Scan(m, n, i)| && Scan(m, n, i)[k].start <= p < Scan(m, n, i)[k].end
    decreases n - i
  {
    match m(i)
    case Some(h) =>
      var rest := Scan(m, n, h.end);
      assert Scan(m, n, i) == [h] + rest;
      if p < h.end {
        assert Scan(m, n, i)[0] == h;
      } else {
        ScanMissesNothing(m, n, h.end, p);
        var k :| 0 <= k < |rest| && rest[k].start <= p < rest[k].end;
        assert Scan(m, n, i)[k + 1] == rest[k];
      }
    case None =>
      ScanMissesNothing(m, n, i + 1, p);
  }

  /** The entry pattern as a matcher over the content. */
  function HeadMatcher(content: string): (m: nat -> Option<Head>)
    ensures Advances(m)
  {
    var m := (p: nat) => HeadAt(content, p);
    assert forall p: nat :: m(p) == HeadAt(content, p);
    m
  }

  /** entry_pattern.finditer(content). */
  function Heads(content: string): seq<Head>
  {
    Scan(HeadMatcher(content), |content|, 0)
  }

  /**
   * The reported heads are matches of the pattern, in order and without
   * overlap, and every position where the pattern matches starts one of
   * them or lies inside one.
   */
  lemma HeadsAreTheMatches(content: string)
    ensures forall k :: 0 <= k < |Heads(content)| ==> HeadAt(content, Heads(content)[k].start) == Some(Heads(content)[k])
    ensures forall k :: 0 <= k < |Heads(content)| - 1 ==> Heads(content)[k].end <= Heads(content)[k + 1].start
    ensures forall p: nat :: HeadAt(content, p).Some? ==>
      exists k :: 0 <= k < |Heads(content)| && Heads(content)[k].start <= p < Heads(content)[k].end
  {
    var m := HeadMatcher(content);
    var heads := Heads(content);
    forall k | 0 <= k < |heads|
      ensures HeadAt(content, heads[k].start) == Some(heads[k])
    {
      ScanMatches(m, |content|, 0, k);
    }
    forall k | 0 <= k < |heads| - 1
      ensures heads[k].end <= heads[k + 1].start
    {
      ScanInOrder(m, |content|, 0, k);
    }
    forall p: nat | HeadAt(content, p).Some?
      ensures exists k :: 0 <= k < |heads| && heads[k].start <= p < heads[k].end
    {
      ScanMissesNothing(m, |content|, 0, p);
    }
  }

  // ------------------------------------------------------------------
  // Fields: `name\s*=\s*\{(.+?)\}(?=\s*,?\s*(?:\w+\s*=|\}))`
  // ------------------------------------------------------------------

  /** The look-ahead after a closing brace at q - 1: optional comma, then another `field =` or the entry's `}`. */
  predicate Continues(text: string, q: nat)
    requires q <= |text|
  {
    var q1 := q + SpaceRun(text, q);
    var q2 := if q1 < |text| && text[q1] == ',' then q1 + 1 else q1;
    var q3 := q2 + SpaceRun(text, q2);
    q3 < |text| &&
      (text[q3] == '}' ||
        (var w := WordRun(text, q3);
         w > 0 && q3 + w + SpaceRun(text, q3 + w) < |text| && text[q3 + w + SpaceRun(text, q3 + w)] == '='))
  }

  /** A brace at e that may close the lazy value group. */
  predicate ClosesAt(text: string, e: nat)
  {
    e < |text| && text[e] == '}' && Continues(text, e + 1)
  }

  /** The first closing brace at or after e. */
  function CloseFrom(text: string, e: nat): (r: Option<nat>)
    ensures r.Some? ==> e <= r.value && ClosesAt(text, r.value)
    ensures r.Some? ==> forall j :: e <= j < r.value ==> !ClosesAt(text, j)
    ensures r.None? ==> forall j :: e <= j ==> !ClosesAt(text, j)
    decreases |text| - e
  {
    if e >= |text| then None
    else if ClosesAt(text, e) then Some(e)
    else CloseFrom(text, e + 1)
  }

  /**
   * The field pattern matched at position i, with the name compared
   * case-insensitively; with `notAfterLetter` the `(?<![a-z])` look-behind
   * applies, which under IGNORECASE refuses any letter before the name.
   */
  function FieldAt(text: string, name: string, notAfterLetter: bool, i: nat): (r: Option<string>)
    ensures r.Some? ==> i + |name| <= |text| && LowerStr(text[i..i + |name|]) == name
    ensures r.Some? && notAfterLetter && i > 0 ==> !IsAlpha(text[i - 1])
    ensures r.Some? ==> |r.value| > 0
  {
    if notAfterLetter && 0 < i <= |text| && IsAlpha(text[i - 1]) then None
    else if i + |name| > |text| || LowerStr(text[i..i + |name|]) != name then None
    else
      var j := i + |name| + SpaceRun(text, i + |name|);
      if j >= |text| || text[j] != '=' then None
      else
        var k := j + 1 + SpaceRun(text, j + 1);
        if k >= |text| || text[k] != '{' then None
        else
          match CloseFrom(text, k + 2)
          case None => None
          case Some(e) => Some(text[k + 1..e])
  }

  /** The leftmost position from i up to n at which f reports a match, and that match. */
  function Leftmost(f: nat -> Option<string>, n: nat, i: nat): (r: Option<string>)
    decreases n + 1 - i
  {
    if i > n then None
    else
      match f(i)
      case Some(v) => Some(v)
      case None => Leftmost(f, n, i + 1)
  }

  lemma {:induction false} LeftmostIsFirst(f: nat -> Option<string>, n: nat, i: nat)
    ensures Leftmost(f, n, i).Some? ==>
      exists p :: i <= p <= n && f(p) == Leftmost(f, n, i) && forall q :: i <= q < p ==> f(q).None?
    ensures Leftmost(f, n, i).None? ==> forall p :: i <= p <= n ==> f(p).None?
    decreases n + 1 - i
  {
    if i <= n && f(i).None? {
      LeftmostIsFirst(f, n, i + 1);
    }
  }

  /** The field pattern as a matcher over the text. */
  function FieldMatcher(text: string, name: string, notAfterLetter: bool): nat -> Option<string>
  {
    (p: nat) => FieldAt(text, name, notAfterLetter, p)
  }

  /** re.search for the field pattern: the match at the leftmost position where it matches. */
  function FieldSearch(text: string, name: string, notAfterLetter: bool): Option<string>
  {
    Leftmost(FieldMatcher(text, name, notAfterLetter), |text|, 0)
  }

  /** The search finds the match at the leftmost position where the pattern matches, and nothing when it matches nowhere. */
  lemma FieldSearchIsLeftmost(text: string, name: string, notAfterLetter: bool)
    ensures FieldSearch(text, name, notAfterLetter).Some? ==>
      exists p :: FieldAt(text, name, notAfterLetter, p) == FieldSearch(text, name, notAfterLetter) &&
        forall q :: q < p ==> FieldAt(text, name, notAfterLetter, q).None?
    ensures FieldSearch(text, name, notAfterLetter).None? ==> forall p :: FieldAt(text, name, notAfterLetter, p).None?
  {
    var f := FieldMatcher(text, name, notAfterLetter);
    var r := FieldSearch(text, name, notAfterLetter);
    LeftmostIsFirst(f, |text|, 0);
    if r.Some? {
      var p :| 0 <= p <= |text| && f(p) == r && forall q :: 0 <= q < p ==> f(q).None?;
      assert FieldAt(text, name, notAfterLetter, p) == r;
      forall q: nat | q < p ensures FieldAt(text, name, notAfterLetter, q).None? {
        assert f(q).None?;
      }
    } else {
      forall p: nat ensures FieldAt(text, name, notAfterLetter, p).None? {
        if p <= |text| {
          assert f(p).None?;
        }
      }
    }
  }

  /** The `title` of a `booktitle` field is not a title match: the look-behind sees the `k`. */
  lemma BooktitleIsNotTitle(text: string, i: nat)
    requires 4 <= i <= |text| && LowerStr(text[i - 4..i]) == "book"
    ensures FieldAt(text, "title", true, i).None?
  {
    assert LowerStr(text[i - 4..i])[3] == Lower(text[i - 1]);
  }

  // ------------------------------------------------------------------
  // parse_bibtex_entries
  // ------------------------------------------------------------------

  datatype Entry = Entry(entryType: string, key: string, title: Option<string>, summary: Option<string>)

  function CleanField(v: Option<string>): (r: Option<string>)
    ensures r.Some? <==> v.Some?
    ensures r.Some? ==> r.value == CleanText(v.value)
  {
    match v
    case None => None
    case Some(s) => Some(CleanText(s))
  }

  /** The entry read from its text, which starts with the head h. */
  function EntryFrom(h: Head, entryText: string): Entry
  {
    Entry(h.entryType, Strip(h.key),
      CleanField(FieldSearch(entryText, "title", true)),
      CleanField(FieldSearch(entryText, "abstract", false)))
  }

  /**
   * The key is the head's key stripped; the title and the abstract are
   * present exactly when their pattern matches the entry text, and then
   * cleaned.
   */
  lemma EntryFromFacts(h: Head, entryText: string)
    ensures var e := EntryFrom(h, entryText);
      && e.key == Strip(h.key) && e.entryType == h.entryType
      && (e.title.Some? <==> FieldSearch(entryText, "title", true).Some?)
      && (e.summary.Some? <==> FieldSearch(entryText, "abstract", false).Some?)
      && (e.title.Some? ==> Collapsed(e.title.value))
      && (e.summary.Some? ==> Collapsed(e.summary.value))
  {
  }

  /** The text of the k-th entry: from its head up to the next head, or to the end of the content. */
  function EntryText(content: string, k: nat): (t: string)
    requires k < |Heads(content)|
    ensures |t| > 0 && t[0] == '@'
  {
    var heads := Heads(content);
    ScanMatches(HeadMatcher(content), |content|, 0, k);
    if k + 1 < |heads| then
      ScanInOrder(HeadMatcher(content), |content|, 0, k);
      ScanMatches(HeadMatcher(content), |content|, 0, k + 1);
      content[heads[k].start..heads[k + 1].start]
    else content[heads[k].start..]
  }

  /** The entries of parse_bibtex_entries: one per head, in order, each read from its own text. */
  function ParsedEntries(content: string): (r: seq<Entry>)
    ensures |r| == |Heads(content)|
  {
    var heads := Heads(content);
    seq(|heads|, k requires 0 <= k < |heads| => EntryFrom(heads[k], EntryText(content, k)))
  }

  lemma ParsedEntriesAt(content: string, k: nat)
    requires k < |Heads(content)|
    ensures ParsedEntries(content)[k] == EntryFrom(Heads(content)[k], EntryText(content, k))
  {
  }

  /** One step of parse_bibtex_entries: the k-th entry, read from the text up to the next head or the end. */
  method ReadEntry(content: string, k: nat) returns (entry: Entry)
    requires k < |Heads(content)|
    ensures entry == ParsedEntries(content)[k]
  {
    var heads := Heads(content);
    ScanMatches(HeadMatcher(content), |content|, 0, k);
    var end := |content|;
    if k + 1 < |heads| {
      ScanInOrder(HeadMatcher(content), |content|, 0, k);
      ScanMatches(HeadMatcher(content), |content|, 0, k + 1);
      end := heads[k + 1].start;
    }
    var text := content[heads[k].start..end];
    assert text == EntryText(content, k);
    ParsedEntriesAt(content, k);
    entry := EntryFrom(heads[k], text);
  }

  lemma AppendNext<T>(all: seq<T>, k: nat, done: seq<T>, x: T)
    requires k < |all| && done == all[..k] && x == all[k]
    ensures done + [x] == all[..k + 1]
  {
  }

  /** parse_bibtex_entries: the loop over the heads that appends each entry. */
  method ParseBibtexEntries(content: string) returns (entries: seq<Entry>)
    ensures entries == ParsedEntries(content)
  {
    ghost var all := ParsedEntries(content);
    var heads := Heads(content);
    entries := [];
    for k := 0 to |heads|
      invariant entries == all[..k]
    {
      var entry := ReadEntry(content, k);
      AppendNext(all, k, entries, entry);
      entries := entries + [entry];
    }
    assert all[..|heads|] == all;
  }

  // ------------------------------------------------------------------
  // format_output
  // ------------------------------------------------------------------

  /** `entry['title'] or '(no title)'`: an absent or empty value falls back to the placeholder. */
  function OrPlaceholder(v: Option<string>, placeholder: string): (r: string)
    ensures v.Some? && v.value != "" ==> r == v.value
    ensures v.None? || v.value == "" ==> r == placeholder
  {
    if v.Some? && v.value != "" then v.value else placeholder
  }

  /** The six lines of the n-th entry: heading, blank, abstract, blank, rule, blank. */
  function EntryLines(n: nat, e: Entry): seq<string>
  {
    ["## " + NatToString(n) + ". " + OrPlaceholder(e.title, "(no title)"), "", OrPlaceholder(e.summary, "(no abstract)"), "", "---", ""]
  }

  /** The lines of all entries, numbered from 1. */
  function OutputLines(entries: seq<Entry>): seq<string>
  {
    if |entries| == 0 then [] else OutputLines(entries[..|entries| - 1]) + EntryLines(|entries|, entries[|entries| - 1])
  }

  /** Six lines per entry. */
  lemma {:induction false} OutputLinesLength(entries: seq<Entry>)
    ensures |OutputLines(entries)| == 6 * |entries|
  {
    if |entries| > 0 {
      OutputLinesLength(entries[..|entries| - 1]);
    }
  }

  /** The k-th block of six lines is that of entry k, numbered k + 1. */
  lemma {:induction false} OutputLinesBlock(entries: seq<Entry>, k: nat)
    requires k < |entries|
    ensures 6 * k + 6 <= |OutputLines(entries)|
    ensures OutputLines(entries)[6 * k..6 * k + 6] == EntryLines(k + 1, entries[k])
  {
    var n := |entries| - 1;
    var prev := OutputLines(entries[..n]);
    OutputLinesLength(entries[..n]);
    assert OutputLines(entries) == prev + EntryLines(n + 1, entries[n]);
    if k < n {
      OutputLinesBlock(entries[..n], k);
      assert entries[..n][k] == entries[k];
      assert (prev + EntryLines(n + 1, entries[n]))[6 * k..6 * k + 6] == prev[6 * k..6 * k + 6];
    }
  }

  /** format_output: the lines of every entry, in order, joined by newlines. */
  method FormatOutput(entries: seq<Entry>) returns (text: string)
    ensures text == Join(OutputLines(entries), "\n")
  {
    var lines := [];
    for i := 0 to |entries|
      invariant lines == OutputLines(entries[..i])
    {
      assert entries[..i + 1][..i] == entries[..i];
      lines := lines + EntryLines(i + 1, entries[i]);
    }
    assert entries[..|entries|] == entries;
    text := Join(lines, "\n");
  }
}
