/**
 * The PDF fetch step (app/backend/step_handlers/pdf_fetch.py).
 *
 * The pure helpers that name, rewrite and check candidate URLs, the
 * duplicate-free candidate queue, the acceptance rule for a fetched body,
 * the download loop over a candidate list that grows while it is walked,
 * and the per-entry fallback chain of the step (cache, local file, web
 * candidates, browser assist, missing) with the pass-mode partition of its
 * results. Every network, browser and filesystem result is an oracle value
 * handed in by the caller.
 */
module PdfFetch {
  import opened Wrappers
  import opened Text
  import opened PdfLibrary
  import opened Bib
  import Perm

  type byte = x: int | 0 <= x < 256

  // ------------------------------------------------------------------
  // Small pure helpers
  // ------------------------------------------------------------------

  /** is_acm_doi: a non-empty DOI under the ACM prefix 10.1145/. */
  predicate IsAcmDoi(doi: Option<string>)
  {
    doi.Some? && doi.value != "" && StartsWith(doi.value, "10.1145/")
  }

  /** The reasons a missing outcome can carry, with their labels. */
  const ReasonLabels: map<string, string> := map[
    "pdf_not_resolved" := "No downloadable PDF found from known sources.",
    "browser_assist_unresolved" := "Browser assist timed out before a PDF became downloadable.",
    "browser_assist_unavailable" := "Browser assist could not start (Playwright or browser runtime unavailable).",
    "browser_assist_error" := "Browser assist failed while trying to fetch the PDF.",
    "not_found" := "PDF was not resolved."]

  /** The reasons with their hints. */
  const ReasonHints: map<string, string> := map[
    "pdf_not_resolved" := "Try re-run with browser assist enabled and complete publisher login first.",
    "browser_assist_unresolved" := "Keep the opened browser window on the publisher page until challenge/login is completed.",
    "browser_assist_unavailable" := "Install Playwright and run 'playwright install chromium' in the backend runtime environment.",
    "browser_assist_error" := "Retry once; if repeated, inspect backend logs for the specific browser/network error.",
    "not_found" := "Try re-run with browser assist enabled."]

  /** missing_reason_label: None for no reason, the table's label, or the reason itself when unlisted. */
  function MissingReasonLabel(reason: Option<string>): (r: Option<string>)
    ensures r.None? <==> reason.None? || reason.value == ""
    ensures r.Some? ==> r.value == if reason.value in ReasonLabels then ReasonLabels[reason.value] else reason.value
  {
    if reason.None? || reason.value == "" then None
    else if reason.value in ReasonLabels then Some(ReasonLabels[reason.value])
    else Some(reason.value)
  }

  /** missing_reason_hint: the table's hint, and None for no reason or an unlisted one. */
  function MissingReasonHint(reason: Option<string>): (r: Option<string>)
    ensures r.Some? <==> reason.Some? && reason.value != "" && reason.value in ReasonHints
    ensures r.Some? ==> r.value == ReasonHints[reason.value]
  {
    if reason.None? || reason.value == "" then None
    else if reason.value in ReasonHints then Some(ReasonHints[reason.value])
    else None
  }

  /**
   * summarize_entry_label: the DOI when there is one; otherwise the title
   * with its whitespace collapsed, cut to 80 characters plus "..." when
   * longer; otherwise the entry key.
   */
  function SummarizeEntryLabel(entryKey: string, doi: Option<string>, title: string): (r: string)
    ensures doi.Some? && doi.value != "" ==> r == doi.value
    ensures (doi.None? || doi.value == "") && CollapseSpaces(title) == "" ==> r == entryKey
    ensures (doi.None? || doi.value == "") && CollapseSpaces(title) != "" ==>
              |r| <= 83 && |r| > 0 && !IsSpace(r[0]) && r[..if |r| > 80 then 80 else |r|] <= CollapseSpaces(title)
  {
    if doi.Some? && doi.value != "" then doi.value
    else
      var compact := CollapseSpaces(title);
      if compact == "" then entryKey
      else if |compact| > 80 then
        assert (compact[..80] + "...")[..80] == compact[..80];
        compact[..80] + "..."
      else compact
  }

  // ------------------------------------------------------------------
  // sanitize_profile_name
  // ------------------------------------------------------------------

  /** The characters BROWSER_PROFILE_RE leaves alone: [a-zA-Z0-9._-]. */
  predicate ProfileChar(c: char) { IsAlnum(c) || c == '.' || c == '_' || c == '-' }

  const ProfileEdge: set<char> := {'.', '_', '-'}

  /** Drops a leading run of characters outside [a-zA-Z0-9._-]. */
  function SkipForeign(s: string): (r: string)
    ensures |r| <= |s| && r == s[|s| - |r|..]
    ensures |r| > 0 ==> ProfileChar(r[0])
    decreases |s|
  {
    if |s| > 0 && !ProfileChar(s[0]) then SkipForeign(s[1..]) else s
  }

  /** BROWSER_PROFILE_RE.sub("_", s): every maximal run of other characters becomes one `_`. */
  function ReplaceForeignRuns(s: string): (r: string)
    ensures forall i :: 0 <= i < |r| ==> ProfileChar(r[i])
    ensures (forall i :: 0 <= i < |s| ==> ProfileChar(s[i])) ==> r == s
    ensures |s| > 0 ==> |r| > 0
    decreases |s|
  {
    if |s| == 0 then ""
    else if ProfileChar(s[0]) then [s[0]] + ReplaceForeignRuns(s[1..])
    else "_" + ReplaceForeignRuns(SkipForeign(s[1..]))
  }

  /** The shape of a sanitized profile name. */
  predicate ProfileName(v: string)
  {
    && |v| > 0
    && (forall i :: 0 <= i < |v| ==> ProfileChar(v[i]))
    && v[0] !in ProfileEdge && v[|v| - 1] !in ProfileEdge
  }

  /**
   * sanitize_profile_name: strip, fall back to "default", replace foreign
   * runs by `_`, strip `.`, `_` and `-` from both ends, and fall back to
   * "default" again.
   */
  function SanitizeProfileName(raw: Option<string>): (r: string)
    ensures ProfileName(r)
  {
    var value := Strip(if raw.None? || raw.value == "" then "default" else raw.value);
    var cleaned := CleanProfile(if value == "" then "default" else value);
    if cleaned == "" then DefaultIsProfileName(); "default" else cleaned
  }

  /** Foreign runs replaced, then `.`, `_` and `-` stripped from both ends. */
  function CleanProfile(v: string): (r: string)
    ensures r == "" || ProfileName(r)
  {
    var replaced := ReplaceForeignRuns(v);
    var cleaned := StripSet(replaced, ProfileEdge);
    forall i | 0 <= i < |cleaned| ensures ProfileChar(cleaned[i]) {
      assert cleaned[i] in cleaned;
      var j :| 0 <= j < |replaced| && replaced[j] == cleaned[i];
    }
    cleaned
  }

  lemma DefaultIsProfileName()
    ensures ProfileName("default")
  {
  }

  /** A name that is already sanitized is left as it is. */
  lemma SanitizeKeepsProfileName(v: string)
    requires ProfileName(v)
    ensures SanitizeProfileName(Some(v)) == v
  {
    assert !IsSpace(v[0]) && !IsSpace(v[|v| - 1]);
    StripNoEdges(v, Whitespace);
    StripNoEdges(v, ProfileEdge);
  }

  /** Sanitizing twice gives the same name as sanitizing once. */
  lemma SanitizeIdempotent(raw: Option<string>)
    ensures SanitizeProfileName(Some(SanitizeProfileName(raw))) == SanitizeProfileName(raw)
  {
    SanitizeKeepsProfileName(SanitizeProfileName(raw));
  }

  // ------------------------------------------------------------------
  // URL shape checks
  // ------------------------------------------------------------------

  /** The text `.pdf`, compared case-insensitively, sits at position i of url. */
  predicate PdfAt(url: string, i: int)
  {
    0 <= i && i + 4 <= |url| && LowerStr(url[i..i + 4]) == ".pdf"
  }

  /**
   * is_pdf_like_url: `\.pdf($|[?#])` found anywhere, case-insensitively;
   * Python's `$` also matches just before a final newline.
   */
  predicate IsPdfLikeUrl(url: string)
  {
    exists i :: 0 <= i <= |url| && PdfAt(url, i) &&
      (i + 4 == |url| || url[i + 4] == '?' || url[i + 4] == '#' || (i + 5 == |url| && url[i + 4] == '\n'))
  }

  /** A URL ending in `.pdf` in any case, or with `.pdf` just before its query, is PDF-like. */
  lemma PdfSuffixIsPdfLike(stem: string, ext: string, tail: string)
    requires |ext| == 4 && LowerStr(ext) == ".pdf"
    requires tail == "" || tail[0] == '?' || tail[0] == '#'
    ensures IsPdfLikeUrl(stem + ext + tail)
  {
    var url := stem + ext + tail;
    assert url[|stem|..|stem| + 4] == ext;
    assert PdfAt(url, |stem|);
  }

  /** A URL in which `.pdf` occurs nowhere is not PDF-like. */
  lemma NoPdfNotPdfLike(url: string)
    requires forall i :: !PdfAt(url, i)
    ensures !IsPdfLikeUrl(url)
  {
  }

  const PublisherHints: seq<string> := [".pdf", "/doi/pdf/", "/doi/epdf/", "stamp/stamp.jsp", "stamppdf/getpdf.jsp", "download=true"]

  /** publisher_hint_urls: the lower-cased URL contains one of the publisher PDF markers. */
  function PublisherHintUrl(url: Option<string>): (b: bool)
    ensures b <==> url.Some? && url.value != "" &&
                   exists k :: 0 <= k < |PublisherHints| && Contains(LowerStr(url.value), PublisherHints[k])
  {
    url.Some? && url.value != "" && ContainsAny(LowerStr(url.value), PublisherHints)
  }

  // ------------------------------------------------------------------
  // urllib.parse.quote(s, safe="")
  // ------------------------------------------------------------------

  /** The characters quote never escapes: ASCII letters, digits and `_.-~`. */
  predicate Unreserved(c: char) { IsAlnum(c) || c == '_' || c == '.' || c == '-' || c == '~' }

  function HexUpper(n: nat): (c: char)
    requires n < 16
    ensures IsHex(c) && HexValue(c) == n
  {
    if n < 10 then DigitChar(n) else ('A' as int + n - 10) as char
  }

  /** The UTF-8 bytes of one character. */
  function Utf8(c: char): (r: seq<nat>)
    ensures 1 <= |r| <= 4
    ensures forall i :: 0 <= i < |r| ==> r[i] < 256
    ensures c as int < 128 ==> r == [c as int]
  {
    var n := c as int;
    if n < 0x80 then [n]
    else if n < 0x800 then [0xC0 + n / 64, 0x80 + n % 64]
    else if n < 0x10000 then [0xE0 + n / 4096, 0x80 + (n / 64) % 64, 0x80 + n % 64]
    else [0xF0 + n / 262144, 0x80 + (n / 4096) % 64, 0x80 + (n / 64) % 64, 0x80 + n % 64]
  }

  function PercentBytes(bs: seq<nat>): (r: string)
    requires forall i :: 0 <= i < |bs| ==> bs[i] < 256
    ensures |r| == 3 * |bs|
  {
    if |bs| == 0 then ""
    else ['%', HexUpper(bs[0] / 16), HexUpper(bs[0] % 16)] + PercentBytes(bs[1..])
  }

  /** quote(s, safe=""): unreserved characters stay, every other one becomes the %XX of its UTF-8 bytes. */
  function Quote(s: string): (r: string)
    ensures forall i :: 0 <= i < |r| ==> Unreserved(r[i]) || r[i] == '%' || IsHex(r[i])
    ensures (forall i :: 0 <= i < |s| ==> Unreserved(s[i])) ==> r == s
    decreases |s|
  {
    if |s| == 0 then ""
    else
      var head := if Unreserved(s[0]) then [s[0]] else PercentBytes(Utf8(s[0]));
      assert forall i :: 0 <= i < |head| ==> Unreserved(head[i]) || head[i] == '%' || IsHex(head[i]) by {
        if !Unreserved(s[0]) { PercentBytesChars(Utf8(s[0])); }
      }
      head + Quote(s[1..])
  }

  lemma {:induction false} PercentBytesChars(bs: seq<nat>)
    requires forall i :: 0 <= i < |bs| ==> bs[i] < 256
    ensures forall i :: 0 <= i < |PercentBytes(bs)| ==> PercentBytes(bs)[i] == '%' || IsHex(PercentBytes(bs)[i])
    decreases |bs|
  {
    if |bs| > 0 {
      PercentBytesChars(bs[1..]);
      var head := ['%', HexUpper(bs[0] / 16), HexUpper(bs[0] % 16)];
      assert PercentBytes(bs) == head + PercentBytes(bs[1..]);
    }
  }

  /** For ASCII text, unquoting the quoted text gives the text back. */
  lemma {:induction false} QuoteRoundTrip(s: string)
    requires forall i :: 0 <= i < |s| ==> s[i] as int < 128
    ensures Unquote(Quote(s)) == s
    decreases |s|
  {
    if |s| > 0 {
      QuoteRoundTrip(s[1..]);
      QuoteHead(s[0], Quote(s[1..]));
      assert Quote(s) == (if Unreserved(s[0]) then [s[0]] else PercentBytes(Utf8(s[0]))) + Quote(s[1..]);
    }
  }

  /** Unquoting the quoted form of one ASCII character in front of any text decodes that character. */
  lemma QuoteHead(c: char, rest: string)
    requires c as int < 128
    ensures Unquote((if Unreserved(c) then [c] else PercentBytes(Utf8(c))) + rest) == [c] + Unquote(rest)
  {
    if Unreserved(c) {
      assert ([c] + rest)[1..] == rest;
    } else {
      var n := c as int;
      var h := ['%', HexUpper(n / 16), HexUpper(n % 16)];
      assert PercentBytes(Utf8(c)) == h;
      assert (h + rest)[3..] == rest;
      assert (HexValue(h[1]) * 16 + HexValue(h[2])) as char == c;
    }
  }

  // ------------------------------------------------------------------
  // arxiv_pdf_url
  // ------------------------------------------------------------------

  /** Length of the run of ASCII digits at the start of s. */
  function DigitRunLen(s: string): (n: nat)
    ensures n <= |s|
    ensures forall i :: 0 <= i < n ==> IsDigit(s[i])
    ensures n < |s| ==> !IsDigit(s[n])
  {
    if |s| == 0 || !IsDigit(s[0]) then 0 else 1 + DigitRunLen(s[1..])
  }

  /** Length of a `v\d+` version suffix (either case of `v`) at the start of s, or 0. */
  function VersionLen(s: string): (n: nat)
    ensures n <= |s|
  {
    if |s| >= 2 && (s[0] == 'v' || s[0] == 'V') && IsDigit(s[1]) then 1 + DigitRunLen(s[1..]) else 0
  }

  /**
   * Length of the greedy match of `\d{4}\.\d{4,5}(?:v\d+)?` at the start
   * of s, or 0 when it does not match there.
   */
  function ArxivIdLen(s: string): (n: nat)
    ensures n <= |s|
    ensures n > 0 ==> n >= 9 && AllDigits(s[..4]) && s[4] == '.'
  {
    if |s| >= 9 && AllDigits(s[..4]) && s[4] == '.' && AllDigits(s[5..9]) then
      var m := if |s| >= 10 && IsDigit(s[9]) then 10 else 9;
      m + VersionLen(s[m..])
    else 0
  }

  /** The whole text is one arXiv id (re.fullmatch of the id pattern). */
  predicate IsArxivId(s: string) { |s| > 0 && ArxivIdLen(s) == |s| }

  /**
   * ARXIV_ID_RE.search: the id matched at the leftmost position where one
   * starts (an optional `arxiv:` in front of it changes nothing, since a
   * letter cannot start an id).
   */
  function SearchArxivId(s: string): (r: Option<string>)
    ensures r.Some? ==> |r.value| >= 9
    decreases |s|
  {
    if |s| == 0 then None
    else
      var n := ArxivIdLen(s);
      if n > 0 then Some(s[..n]) else SearchArxivId(s[1..])
  }

  /** ARXIV_ABS_RE.match: the `[^/?#]+` run after `http(s)://arxiv.org/abs/`, compared case-insensitively. */
  function ArxivAbsId(text: string): (r: Option<string>)
    ensures r.Some? ==> |r.value| > 0 && forall i :: 0 <= i < |r.value| ==> r.value[i] !in NetlocEnd
  {
    if StartsWithIgnoreCase(text, "https://arxiv.org/abs/") then AbsIdAfter(text[22..])
    else if StartsWithIgnoreCase(text, "http://arxiv.org/abs/") then AbsIdAfter(text[21..])
    else None
  }

  function AbsIdAfter(rest: string): (r: Option<string>)
    ensures r.Some? ==> |r.value| > 0 && forall i :: 0 <= i < |r.value| ==> r.value[i] !in NetlocEnd
  {
    var n := FirstOf(rest, NetlocEnd);
    if n == 0 then None else Some(rest[..n])
  }

  /** An http(s) URL whose host does not mention arxiv.org. */
  predicate OffArxivUrl(text: string)
  {
    match SplitScheme(text)
    case None => false
    case Some((_, rest)) => !Contains(LowerStr(SplitNetloc(rest).0), "arxiv.org")
  }

  function ArxivPdf(id: string): string { "https://arxiv.org/pdf/" + id + ".pdf" }

  /**
   * arxiv_pdf_url: the PDF URL for an arxiv.org/abs/ URL, an `arXiv:` id or
   * a bare id; None for an http(s) URL on another host and for anything else.
   */
  function ArxivPdfUrl(urlOrId: string): (r: Option<string>)
    ensures r.Some? ==> exists id :: |id| > 0 && r.value == ArxivPdf(id)
    ensures OffArxivUrl(Strip(urlOrId)) ==> r.None?
  {
    var text := Strip(urlOrId);
    if text == "" || OffArxivUrl(text) then None
    else
      match ArxivAbsId(text)
      case Some(id) => Some(ArxivPdf(id))
      case None =>
        if StartsWithIgnoreCase(text, "arxiv:") || IsArxivId(text) then
          match SearchArxivId(text)
          case Some(id) => Some(ArxivPdf(id))
          case None => None
        else None
  }

  /** A bare arXiv id, such as 2101.00001v2, becomes its PDF URL. */
  lemma ArxivBareId(text: string)
    requires IsArxivId(text)
    ensures ArxivPdfUrl(text) == Some(ArxivPdf(text))
  {
    assert IsDigit(text[0]) by { assert text[..4][0] == text[0]; }
    assert IsDigit(text[|text| - 1]) by { BareIdEndsInDigit(text); }
    StripNoEdges(text, Whitespace);
    assert ':' !in text by { BareIdNoColon(text); }
    assert SplitScheme(text).None?;
    assert !StartsWithIgnoreCase(text, "arxiv:");
    assert ArxivAbsId(text).None?;
    assert text[..|text|] == text;
  }

  lemma BareIdEndsInDigit(text: string)
    requires IsArxivId(text)
    ensures IsDigit(text[|text| - 1])
  {
    var m := if |text| >= 10 && IsDigit(text[9]) then 10 else 9;
    assert AllDigits(text[5..9]);
    assert text[8] == text[5..9][3];
    if VersionLen(text[m..]) > 0 {
      var v := text[m..];
      var k := DigitRunLen(v[1..]);
      assert |text| == m + 1 + k;
      assert text[|text| - 1] == v[1..][k - 1];
    }
  }

  lemma BareIdNoColon(text: string)
    requires IsArxivId(text)
    ensures ':' !in text
  {
    var m := if |text| >= 10 && IsDigit(text[9]) then 10 else 9;
    forall i | 0 <= i < |text| ensures text[i] != ':' {
      if i < 4 { assert text[i] == text[..4][i]; }
      else if 5 <= i < 9 { assert text[i] == text[5..9][i - 5]; }
      else if i >= m {
        var v := text[m..];
        assert text[i] == v[i - m];
        if i > m { assert v[i - m] == v[1..][i - m - 1]; }
      }
    }
  }

  /** An arxiv.org/abs/ URL becomes the PDF URL of the id it names. */
  lemma ArxivAbsUrl(text: string, id: string)
    requires Strip(text) == text && !OffArxivUrl(text)
    requires ArxivAbsId(text) == Some(id)
    ensures ArxivPdfUrl(text) == Some(ArxivPdf(id))
  {
  }

  /** An `arXiv:` id, in any letter case, becomes the PDF URL of the id after the prefix. */
  lemma ArxivPrefixedId(p: string, id: string)
    requires |p| == 6 && StartsWithIgnoreCase(p, "arxiv:")
    requires IsArxivId(id)
    ensures ArxivPdfUrl(p + id) == Some(ArxivPdf(id))
  {
    var text := p + id;
    ArxivPrefixedStripped(p, id);
    ArxivPrefixedNoUrl(p, id);
    assert StartsWithIgnoreCase(text, "arxiv:") by {
      PrefixIgnoreCaseExtends(p, id, "arxiv:");
    }
    ArxivPrefixLetters(p);
    SearchAfterNonDigits(p, id);
  }

  /** An `arXiv:` id has no surrounding white space. */
  lemma ArxivPrefixedStripped(p: string, id: string)
    requires |p| == 6 && StartsWithIgnoreCase(p, "arxiv:")
    requires IsArxivId(id)
    ensures Strip(p + id) == p + id
  {
    var text := p + id;
    ArxivPrefixLetters(p);
    assert IsDigit(text[|text| - 1]) by {
      BareIdEndsInDigit(id);
      assert text[|text| - 1] == id[|id| - 1];
    }
    assert text[0] == p[0] && text[0] !in Whitespace;
    StripNoEdges(text, Whitespace);
  }

  /** An `arXiv:` id is neither an http(s) URL nor an arxiv.org/abs/ link. */
  lemma ArxivPrefixedNoUrl(p: string, id: string)
    requires |p| == 6 && StartsWithIgnoreCase(p, "arxiv:")
    requires IsArxivId(id)
    ensures SplitScheme(p + id).None? && !OffArxivUrl(p + id) && ArxivAbsId(p + id).None?
  {
    var text := p + id;
    ArxivPrefixLetters(p);
    assert ':' !in id by { BareIdNoColon(id); }
    assert IndexOf(text, ':') == Some(5) by {
      assert text[5] == ':' && text[..5] == p[..5];
      IndexOfAt(text, ':', 5);
    }
    assert LowerStr(text[..5])[0] == Lower(p[0]) == 'a';
    assert SplitScheme(text).None?;
    assert text[0] == p[0];
    assert !StartsWithIgnoreCase(text, "https://arxiv.org/abs/") && !StartsWithIgnoreCase(text, "http://arxiv.org/abs/");
  }

  /** The prefix is five letters and a colon, none of them a digit or white space. */
  lemma ArxivPrefixLetters(p: string)
    requires |p| == 6 && StartsWithIgnoreCase(p, "arxiv:")
    ensures p[5] == ':' && Lower(p[0]) == 'a'
    ensures forall j :: 0 <= j < |p| ==> !IsDigit(p[j]) && p[j] !in Whitespace
    ensures ':' !in p[..5]
  {
    var q := "arxiv:";
    forall j | 0 <= j < 6 ensures Lower(p[j]) == q[j] {
      StartsWithIgnoreCaseAt(p, q, j);
    }
  }

  /** The first c in s is at k when s[k] is c and no c comes before it. */
  lemma IndexOfAt(s: string, c: char, k: nat)
    requires k < |s| && s[k] == c && c !in s[..k]
    ensures IndexOf(s, c) == Some(k)
  {
    assert s[k] in s;
  }

  lemma {:induction false} StartsWithIgnoreCaseAt(s: string, p: string, j: nat)
    requires StartsWithIgnoreCase(s, p) && j < |p|
    ensures Lower(s[j]) == p[j]
    decreases j
  {
    if j > 0 {
      StartsWithIgnoreCaseAt(s[1..], p[1..], j - 1);
    }
  }

  lemma {:induction false} PrefixIgnoreCaseExtends(s: string, t: string, p: string)
    requires StartsWithIgnoreCase(s, p)
    ensures StartsWithIgnoreCase(s + t, p)
    decreases |s|
  {
    if |p| > 0 {
      assert (s + t)[0] == s[0] && (s + t)[1..] == s[1..] + t;
      PrefixIgnoreCaseExtends(s[1..], t, p[1..]);
    }
  }

  /** ARXIV_ID_RE.search passes over characters that are not digits. */
  lemma {:induction false} SearchAfterNonDigits(p: string, id: string)
    requires forall j :: 0 <= j < |p| ==> !IsDigit(p[j])
    requires IsArxivId(id)
    ensures SearchArxivId(p + id) == Some(id)
    decreases |p|
  {
    var s := p + id;
    if |p| == 0 {
      assert s == id && id[..|id|] == id;
    } else {
      assert s[0] == p[0] && s[..4][0] == s[0];
      assert ArxivIdLen(s) == 0;
      assert s[1..] == p[1..] + id;
      SearchAfterNonDigits(p[1..], id);
    }
  }

  // ------------------------------------------------------------------
  // is_pdf_likely_for_doi
  // ------------------------------------------------------------------

  /** A byte decoded as Latin-1 and lower-cased (ASCII and Latin-1 capitals). */
  function Latin1Lower(b: byte): char
  {
    if 'A' as int <= b <= 'Z' as int || (0xC0 <= b <= 0xDE && b != 0xD7) then (b + 32) as char else b as char
  }

  function Latin1LowerStr(bs: seq<byte>): (r: string)
    ensures |r| == |bs|
  {
    if |bs| == 0 then "" else [Latin1Lower(bs[0])] + Latin1LowerStr(bs[1..])
  }

  const SampleLimit: nat := 2000000

  /** The lower-cased Latin-1 text of the first two million bytes. */
  function Sample(body: seq<byte>): string
  {
    Latin1LowerStr(body[..if |body| < SampleLimit then |body| else SampleLimit])
  }

  /** The DOI suffix after its first `/` (the whole DOI when it has none). */
  function DoiSuffix(n: string): string { if '/' in n then After(n, '/') else n }

  /** The DOI, or its suffix of six or more characters, occurs in the URL text or the sample. */
  predicate DoiEvidence(n: string, url: string, sample: string)
  {
    var short := DoiSuffix(n);
    Contains(url, n) || (|short| >= 6 && Contains(url, short))
    || Contains(sample, n) || (|short| >= 6 && Contains(sample, short))
  }

  /**
   * is_pdf_likely_for_doi: true without a usable DOI; otherwise the DOI or
   * its long enough suffix must occur in the unquoted lower-cased final URL
   * or in the lower-cased sample of the body.
   */
  predicate IsPdfLikelyForDoi(body: seq<byte>, finalUrl: string, doi: Option<string>)
  {
    if doi.None? || doi.value == "" then true
    else
      var normalized := NormalizeDoi(doi);
      normalized.None? || DoiEvidence(normalized.value, LowerStr(Unquote(finalUrl)), Sample(body))
  }

  /** Bytes beyond the first two million never change the verdict. */
  lemma LikelyIgnoresTail(body: seq<byte>, tail: seq<byte>, finalUrl: string, doi: Option<string>)
    requires |body| >= SampleLimit
    ensures IsPdfLikelyForDoi(body + tail, finalUrl, doi) == IsPdfLikelyForDoi(body, finalUrl, doi)
  {
    assert (body + tail)[..SampleLimit] == body[..SampleLimit];
  }

  /** A body whose sample mentions the normalised DOI is accepted whatever the URL. */
  lemma LikelyWhenSampleNamesDoi(n: string, url: string, sample: string)
    requires Contains(sample, n)
    ensures DoiEvidence(n, url, sample)
  {
  }

  /** Without any occurrence of the DOI or of its suffix, the body is rejected. */
  lemma UnlikelyWithoutEvidence(body: seq<byte>, finalUrl: string, doi: string)
    requires doi != "" && NormalizeDoi(Some(doi)).Some?
    requires !DoiEvidence(NormalizeDoi(Some(doi)).value, LowerStr(Unquote(finalUrl)), Sample(body))
    ensures !IsPdfLikelyForDoi(body, finalUrl, Some(doi))
  {
  }

  // ------------------------------------------------------------------
  // extract_file_field_candidates
  // ------------------------------------------------------------------

  /** The first position of `.pdf`, compared case-insensitively. */
  function FindPdf(s: string): (r: Option<nat>)
    ensures r.Some? ==> PdfAt(s, r.value) && forall j :: 0 <= j < r.value ==> !PdfAt(s, j)
    ensures r.None? ==> forall j :: !PdfAt(s, j)
    decreases |s|
  {
    if |s| < 4 then None
    else if LowerStr(s[..4]) == ".pdf" then Some(0)
    else
      var r := FindPdf(s[1..]);
      forall j | 1 <= j ensures PdfAt(s, j) == PdfAt(s[1..], j - 1) { PdfAtShift(s, j); }
      if r.None? then None else Some(r.value + 1)
  }

  lemma PdfAtShift(s: string, j: int)
    requires 1 <= j && |s| > 0
    ensures PdfAt(s, j) == PdfAt(s[1..], j - 1)
  {
    if j + 4 <= |s| {
      assert s[1..][j - 1..j + 3] == s[j..j + 4];
    }
  }

  /** A candidate ends in `.pdf`, compared case-insensitively. */
  predicate EndsWithPdf(c: string) { |c| >= 4 && PdfAt(c, |c| - 4) }

  const FileQuotes: set<char> := {'{', '}', '"', '\''}

  /** One `;`-separated part: quotes and braces trimmed, then cut just after its first `.pdf`. */
  function FilePartCandidate(part: string): (r: Option<string>)
    ensures r.Some? ==> EndsWithPdf(r.value)
  {
    var p := StripSet(part, FileQuotes);
    match FindPdf(p)
    case None => None
    case Some(i) =>
      var c := Strip(p[..i + 4]);
      CutEndsWithPdf(p[..i + 4]);
      if c == "" then None else Some(c)
  }

  /** Stripping a text that ends in `.pdf` keeps that ending. */
  lemma CutEndsWithPdf(cut: string)
    requires EndsWithPdf(cut)
    ensures EndsWithPdf(Strip(cut))
  {
    PdfTailNotSpace(cut);
    var t := StripStart(cut, Whitespace);
    StripStartKeepsTail(cut, 4, t);
    StripEndSame(cut, t);
    SameTailEndsWithPdf(cut, t);
  }

  lemma PdfTailNotSpace(cut: string)
    requires EndsWithPdf(cut)
    ensures cut[|cut| - 4] !in Whitespace && cut[|cut| - 1] !in Whitespace
  {
    var tail := cut[|cut| - 4..];
    assert LowerStr(tail)[0] == '.' && LowerStr(tail)[3] == 'f';
    assert tail[0] == cut[|cut| - 4] && tail[3] == cut[|cut| - 1];
  }

  lemma SameTailEndsWithPdf(a: string, b: string)
    requires EndsWithPdf(a) && |b| >= 4 && b[|b| - 4..] == a[|a| - 4..]
    ensures EndsWithPdf(b)
  {
  }

  /** Only the white space in front is stripped when the text ends in non-space and has a non-space n from its end. */
  lemma StripStartKeepsTail(s: string, n: nat, t: string)
    requires 0 < n <= |s| && s[|s| - n] !in Whitespace && s[|s| - 1] !in Whitespace
    requires t == StripStart(s, Whitespace)
    ensures |t| >= n && t[|t| - n..] == s[|s| - n..] && t[|t| - 1] !in Whitespace
  {
    StripStartFacts(s, Whitespace);
    assert t == s[|s| - |t|..];
  }

  lemma StripEndSame(s: string, t: string)
    requires t == StripStart(s, Whitespace) && |t| > 0 && t[|t| - 1] !in Whitespace
    ensures Strip(s) == t
  {
    StripEndNone(t);
    StripIsStartThenEnd(s);
  }

  lemma StripEndNone(t: string)
    requires |t| > 0 && t[|t| - 1] !in Whitespace
    ensures StripEnd(t, Whitespace) == t
  {
  }

  /** The non-blank stripped parts of value.split(";"). */
  function FileParts(value: string): (r: seq<string>)
    ensures forall i :: 0 <= i < |r| ==> r[i] != "" && ';' !in r[i]
  {
    var parts := Split(value, ';');
    StrippedNonBlank(parts)
  }

  function StrippedNonBlank(parts: seq<string>): (r: seq<string>)
    requires forall i :: 0 <= i < |parts| ==> ';' !in parts[i]
    ensures forall i :: 0 <= i < |r| ==> r[i] != "" && ';' !in r[i]
  {
    if |parts| == 0 then []
    else
      var p := Strip(parts[0]);
      var rest := StrippedNonBlank(parts[1..]);
      if p == "" then rest else [p] + rest
  }

  /** The candidate of one part, as a list of zero or one elements. */
  function PartCandidate(part: string): (r: seq<string>)
    ensures |r| <= 1
    ensures |r| == 1 <==> FilePartCandidate(part).Some?
  {
    match FilePartCandidate(part)
    case None => []
    case Some(c) => [c]
  }

  /** The candidates of a list of parts, in order. */
  function PartCandidates(parts: seq<string>): (r: seq<string>)
    ensures |r| <= |parts|
  {
    if |parts| == 0 then [] else PartCandidates(parts[..|parts| - 1]) + PartCandidate(parts[|parts| - 1])
  }

  /** Every candidate ends in `.pdf`. */
  lemma {:induction false} PartCandidatesEndWithPdf(parts: seq<string>)
    ensures forall i :: 0 <= i < |PartCandidates(parts)| ==> EndsWithPdf(PartCandidates(parts)[i])
  {
    if |parts| > 0 {
      var n := |parts| - 1;
      PartCandidatesEndWithPdf(parts[..n]);
      var init := PartCandidates(parts[..n]);
      var c := PartCandidate(parts[n]);
      assert PartCandidates(parts) == init + c;
      forall i | 0 <= i < |init + c| ensures EndsWithPdf((init + c)[i]) {
        if i < |init| {
          assert (init + c)[i] == init[i];
        } else {
          assert c == [FilePartCandidate(parts[n]).value];
        }
      }
    }
  }

  /**
   * extract_file_field_candidates as a value: for a non-blank field, one
   * candidate per part that mentions `.pdf`, cut just after its first `.pdf`.
   */
  function FileFieldCandidates(raw: string): (r: seq<string>)
    ensures Strip(raw) == "" ==> r == []
    ensures forall i :: 0 <= i < |r| ==> EndsWithPdf(r[i])
  {
    var value := Strip(raw);
    if value == "" then []
    else
      PartCandidatesEndWithPdf(FileParts(value));
      PartCandidates(FileParts(value))
  }

  /** The part, once braces and quotes are trimmed, contains `.pdf` in some case. */
  predicate MentionsPdf(part: string)
  {
    var p := StripSet(part, FileQuotes);
    exists j :: 0 <= j < |p| && PdfAt(p, j)
  }

  /**
   * A part yields a candidate exactly when it mentions `.pdf`, and that
   * candidate is the trimmed part cut just after its first `.pdf`, stripped.
   */
  lemma FilePartCandidateMeans(part: string)
    ensures FilePartCandidate(part).Some? <==> MentionsPdf(part)
    ensures FilePartCandidate(part).Some? ==>
      var p := StripSet(part, FileQuotes);
      exists i :: PdfAt(p, i) && (forall j :: 0 <= j < i ==> !PdfAt(p, j)) &&
        FilePartCandidate(part).value == Strip(p[..i + 4])
  {
    var p := StripSet(part, FileQuotes);
    match FindPdf(p)
    case None =>
      assert FilePartCandidate(part).None?;
    case Some(i) =>
      CutEndsWithPdf(p[..i + 4]);
      var c := Strip(p[..i + 4]);
      assert c != "";
      assert FilePartCandidate(part) == Some(c);
      assert 0 <= i < |p| && PdfAt(p, i);
  }

  lemma {:induction false} PartCandidatesSnoc(parts: seq<string>, i: nat)
    requires i < |parts|
    ensures PartCandidates(parts[..i + 1]) == PartCandidates(parts[..i]) + PartCandidate(parts[i])
  {
    assert parts[..i + 1][..i] == parts[..i];
  }

  /**
   * The candidates are, in order, the candidates of the parts that mention
   * `.pdf`: one for each such part and none for any other.
   */
  lemma {:induction false} PartCandidatesOfPdfParts(parts: seq<string>, n: nat)
    requires n <= |parts|
    ensures var pdfParts := Perm.Filter(MentionsPdf, parts[..n]);
      |PartCandidates(parts[..n])| == |pdfParts| &&
      forall k :: 0 <= k < |pdfParts| ==> FilePartCandidate(pdfParts[k]) == Some(PartCandidates(parts[..n])[k])
  {
    if n > 0 {
      PartCandidatesOfPdfParts(parts, n - 1);
      PartCandidatesSnoc(parts, n - 1);
      Perm.FilterSnoc(MentionsPdf, parts, n - 1);
      FilePartCandidateMeans(parts[n - 1]);
    }
  }

  /**
   * extract_file_field_candidates returns, in order, one candidate for each
   * non-blank `;`-part of the stripped field that mentions `.pdf`, namely
   * that part's candidate (FilePartCandidateMeans).
   */
  lemma FileFieldCandidatesOfPdfParts(raw: string)
    ensures var pdfParts := Perm.Filter(MentionsPdf, FileParts(Strip(raw)));
      |FileFieldCandidates(raw)| == |pdfParts| &&
      forall k :: 0 <= k < |pdfParts| ==> FilePartCandidate(pdfParts[k]) == Some(FileFieldCandidates(raw)[k])
  {
    var parts := FileParts(Strip(raw));
    PartCandidatesOfPdfParts(parts, |parts|);
    assert parts[..|parts|] == parts;
    if Strip(raw) == "" {
      assert Split("", ';') == [""];
    }
  }

  /** extract_file_field_candidates: the loop over the parts that appends each candidate. */
  method ExtractFileFieldCandidates(raw: string) returns (candidates: seq<string>)
    ensures candidates == FileFieldCandidates(raw)
  {
    var value := Strip(raw);
    if value == "" {
      return [];
    }
    candidates := CandidatesOfParts(FileParts(value));
  }

  method CandidatesOfParts(parts: seq<string>) returns (candidates: seq<string>)
    ensures candidates == PartCandidates(parts)
  {
    candidates := [];
    var i := 0;
    while i < |parts|
      invariant 0 <= i <= |parts|
      invariant candidates == PartCandidates(parts[..i])
    {
      PartCandidatesSnoc(parts, i);
      var c := PartCandidate(parts[i]);
      candidates := candidates + c;
      i := i + 1;
    }
    assert parts[..i] == parts;
  }

  // ------------------------------------------------------------------
  // Accepting a fetched response
  // ------------------------------------------------------------------

  /** What a streamed GET produced: status, headers, the body chunks and the final URL. */
  datatype Response = Response(status: int, contentLength: Option<string>, contentType: Option<string>,
                               chunks: seq<seq<byte>>, finalUrl: string)

  /** An accepted download: body, final URL and lower-cased content type. */
  datatype Fetched = Fetched(body: seq<byte>, finalUrl: string, contentType: string)

  /** The bytes of `%PDF-`. */
  const PdfMagic: seq<byte> := [0x25, 0x50, 0x44, 0x46, 0x2D]

  function Concat(chunks: seq<seq<byte>>): (r: seq<byte>)
  {
    if |chunks| == 0 then [] else chunks[0] + Concat(chunks[1..])
  }

  function MaxBytes(maxPdfMb: int): int { maxPdfMb * 1024 * 1024 }

  /** A body is PDF-like when the content type mentions pdf or the body starts with `%PDF-`. */
  predicate PdfishBody(contentType: string, body: seq<byte>)
  {
    Contains(contentType, "pdf") || PdfMagic <= body
  }

  /** The declared Content-Length, when it is a plain run of digits above the limit. */
  predicate DeclaredTooLong(contentLength: Option<string>, maxBytes: int)
  {
    contentLength.Some? && |contentLength.value| > 0 && AllDigits(contentLength.value)
    && DigitsValue(contentLength.value) > maxBytes
  }

  /**
   * fetch_pdf_bytes as a value: None when the request raised, the status is
   * not 200, the declared or actual size exceeds max_pdf_mb MiB, the body is
   * empty, or neither the content type nor the first bytes say PDF.
   */
  function AcceptFetch(resp: Option<Response>, maxPdfMb: int): (r: Option<Fetched>)
    ensures r.Some? <==> resp.Some? && resp.value.status == 200
                         && !DeclaredTooLong(resp.value.contentLength, MaxBytes(maxPdfMb))
                         && 0 < |Concat(resp.value.chunks)| <= MaxBytes(maxPdfMb)
                         && PdfishBody(LowerStr(resp.value.contentType.GetOr("")), Concat(resp.value.chunks))
    ensures r.Some? ==> r.value.body == Concat(resp.value.chunks) && r.value.finalUrl == resp.value.finalUrl
    ensures r.Some? ==> NoUpper(r.value.contentType)
  {
    if resp.None? then None
    else
      var rp := resp.value;
      var maxBytes := MaxBytes(maxPdfMb);
      var body := Concat(rp.chunks);
      var ct := LowerStr(rp.contentType.GetOr(""));
      LowerStrNoUpper(rp.contentType.GetOr(""));
      if rp.status != 200 || DeclaredTooLong(rp.contentLength, maxBytes) || |body| > maxBytes || |body| == 0
         || !PdfishBody(ct, body)
      then None
      else Some(Fetched(body, rp.finalUrl, ct))
  }

  /**
   * fetch_pdf_bytes: the streaming loop skips empty chunks, adds up the
   * size and gives up as soon as the running size passes the limit.
   */
  method FetchPdfBytes(resp: Option<Response>, maxPdfMb: int) returns (r: Option<Fetched>)
    ensures r == AcceptFetch(resp, maxPdfMb)
  {
    if resp.None? {
      return None;
    }
    var rp := resp.value;
    var maxBytes := MaxBytes(maxPdfMb);
    if rp.status != 200 {
      return None;
    }
    if DeclaredTooLong(rp.contentLength, maxBytes) {
      return None;
    }
    var body: seq<byte> := [];
    var size := 0;
    var i := 0;
    while i < |rp.chunks|
      invariant 0 <= i <= |rp.chunks|
      invariant body + Concat(rp.chunks[i..]) == Concat(rp.chunks)
      invariant size == |body| && (body == [] || |body| <= maxBytes)
    {
      assert rp.chunks[i..][1..] == rp.chunks[i + 1..];
      var chunk := rp.chunks[i];
      i := i + 1;
      if |chunk| == 0 {
        continue;
      }
      size := size + |chunk|;
      if size > maxBytes {
        assert Concat(rp.chunks) == body + chunk + Concat(rp.chunks[i..]);
        return None;
      }
      body := body + chunk;
    }
    assert rp.chunks[i..] == [];
    assert body == Concat(rp.chunks);
    if |body| == 0 {
      return None;
    }
    var ct := LowerStr(rp.contentType.GetOr(""));
    if !PdfishBody(ct, body) {
      return None;
    }
    return Some(Fetched(body, rp.finalUrl, ct));
  }

  /**
   * The browser request's acceptance (_fetch_pdf_with_browser_request):
   * status 200, a non-empty body within the limit, and a PDF content type
   * or `%PDF-` magic.
   */
  function AcceptBrowserResponse(status: int, body: seq<byte>, finalUrl: string, contentType: Option<string>, maxPdfMb: int)
    : (r: Option<Fetched>)
    ensures r.Some? <==> status == 200 && 0 < |body| <= MaxBytes(maxPdfMb)
                         && PdfishBody(LowerStr(contentType.GetOr("")), body)
    ensures r.Some? ==> r.value.body == body
  {
    if status != 200 || |body| == 0 || |body| > MaxBytes(maxPdfMb) then None
    else
      var ct := LowerStr(contentType.GetOr(""));
      if !PdfishBody(ct, body) then None else Some(Fetched(body, finalUrl, ct))
  }

  // ------------------------------------------------------------------
  // The candidate list (add_url_candidate, collect_candidate_urls)
  // ------------------------------------------------------------------

  /** A candidate: a normalised URL and the provider that proposed it. */
  type Candidate = (string, string)

  /** A proposed URL (possibly absent) and its provider, as handed to add_url_candidate. */
  type Proposal = (Option<string>, string)

  /** The URLs of a candidate list. */
  function UrlSet(cs: seq<Candidate>): set<string>
  {
    set c | c in cs :: c.0
  }

  /** No URL occurs twice in the list. */
  predicate UrlsDistinct(cs: seq<Candidate>)
  {
    forall i, j :: 0 <= i < j < |cs| ==> cs[i].0 != cs[j].0
  }

  /** A URL normaliser; the step uses normalize_url. */
  type Normalizer = Option<string> -> Option<string>

  /** add_url_candidate on values: append the normalised URL unless it is absent or already listed. */
  function Added(cs: seq<Candidate>, p: Proposal, norm: Normalizer): (r: seq<Candidate>)
    ensures cs <= r && |r| <= |cs| + 1
    ensures norm(p.0).Some? ==> norm(p.0).value in UrlSet(r)
    ensures |r| == |cs| + 1 ==> norm(p.0).Some? && r[|cs|] == (norm(p.0).value, p.1)
    ensures |r| == |cs| + 1 <==> norm(p.0).Some? && norm(p.0).value !in UrlSet(cs)
  {
    match norm(p.0)
    case None => cs
    case Some(u) =>
      if u in UrlSet(cs) then cs
      else
        assert (cs + [(u, p.1)])[|cs|] == (u, p.1);
        cs + [(u, p.1)]
  }

  /** A sequence of add_url_candidate calls, in order. */
  function AddAll(cs: seq<Candidate>, ps: seq<Proposal>, norm: Normalizer): (r: seq<Candidate>)
    ensures cs <= r
    decreases |ps|
  {
    if |ps| == 0 then cs else AddAll(Added(cs, ps[0], norm), ps[1..], norm)
  }

  /** Some proposal normalises to u. */
  predicate Proposes(ps: seq<Proposal>, u: string, norm: Normalizer)
  {
    exists k :: 0 <= k < |ps| && norm(ps[k].0) == Some(u)
  }

  /** Adding keeps the URLs distinct. */
  lemma {:induction false} AddAllDistinct(cs: seq<Candidate>, ps: seq<Proposal>, norm: Normalizer)
    requires UrlsDistinct(cs)
    ensures UrlsDistinct(AddAll(cs, ps, norm))
    decreases |ps|
  {
    if |ps| > 0 {
      var next := Added(cs, ps[0], norm);
      AddedDistinct(cs, ps[0], norm);
      AddAllDistinct(next, ps[1..], norm);
    }
  }

  lemma AddedDistinct(cs: seq<Candidate>, p: Proposal, norm: Normalizer)
    requires UrlsDistinct(cs)
    ensures UrlsDistinct(Added(cs, p, norm))
  {
    var next := Added(cs, p, norm);
    if |next| == |cs| + 1 {
      assert next == cs + [next[|cs|]];
      forall i | 0 <= i < |cs| ensures cs[i].0 != next[|cs|].0 {
        assert cs[i] in cs;
      }
    }
  }

  /** Every proposal whose URL normalises ends up listed. */
  lemma {:induction false} AddAllComplete(cs: seq<Candidate>, ps: seq<Proposal>, norm: Normalizer, u: string)
    requires Proposes(ps, u, norm) || u in UrlSet(cs)
    ensures u in UrlSet(AddAll(cs, ps, norm))
    decreases |ps|
  {
    if |ps| > 0 {
      var next := Added(cs, ps[0], norm);
      PrefixUrlSet(cs, next);
      if u !in UrlSet(next) {
        var k :| 0 <= k < |ps| && norm(ps[k].0) == Some(u);
        assert k != 0;
        assert ps[1..][k - 1] == ps[k];
      }
      AddAllComplete(next, ps[1..], norm, u);
    }
  }

  /** Nothing is listed that was neither listed before nor proposed. */
  lemma {:induction false} AddAllSound(cs: seq<Candidate>, ps: seq<Proposal>, norm: Normalizer, u: string)
    requires u in UrlSet(AddAll(cs, ps, norm))
    ensures u in UrlSet(cs) || Proposes(ps, u, norm)
    decreases |ps|
  {
    if |ps| > 0 {
      var next := Added(cs, ps[0], norm);
      AddAllSound(next, ps[1..], norm, u);
      if u in UrlSet(next) {
        AddedSound(cs, ps[0], norm, u);
      } else {
        var k :| 0 <= k < |ps[1..]| && norm(ps[1..][k].0) == Some(u);
        assert ps[k + 1] == ps[1..][k];
      }
    }
  }

  lemma AddedSound(cs: seq<Candidate>, p: Proposal, norm: Normalizer, u: string)
    requires u in UrlSet(Added(cs, p, norm))
    ensures u in UrlSet(cs) || norm(p.0) == Some(u)
  {
    var next := Added(cs, p, norm);
    if |next| == |cs| + 1 {
      assert next == cs + [next[|cs|]];
      var c :| c in next && c.0 == u;
      if c !in cs {
        assert c == next[|cs|];
      }
    } else {
      assert next == cs;
    }
  }

  lemma PrefixUrlSet(a: seq<Candidate>, b: seq<Candidate>)
    requires a <= b
    ensures UrlSet(a) <= UrlSet(b)
  {
    forall u | u in UrlSet(a) ensures u in UrlSet(b) {
      var c :| c in a && c.0 == u;
      var i :| 0 <= i < |a| && a[i] == c;
      assert b[i] == c;
    }
  }

  /** Adding a concatenation is adding one part after the other. */
  lemma {:induction false} AddAllAppend(cs: seq<Candidate>, a: seq<Proposal>, b: seq<Proposal>, norm: Normalizer)
    ensures AddAll(cs, a + b, norm) == AddAll(AddAll(cs, a, norm), b, norm)
    decreases |a|
  {
    if |a| > 0 {
      assert (a + b)[0] == a[0];
      assert (a + b)[1..] == a[1..] + b;
      AddAllAppend(Added(cs, a[0], norm), a[1..], b, norm);
    } else {
      assert a + b == b;
    }
  }

  /**
   * The candidate list of one entry: the (url, provider) pairs in the order
   * the adds happen, and the URL set that rejects repeats.
   */
  class CandidateList {
    var candidates: seq<Candidate>
    var seen: set<string>
    const norm: Normalizer

    ghost predicate Valid()
      reads this
    {
      UrlsDistinct(candidates) && seen == UrlSet(candidates) && |seen| == |candidates|
    }

    constructor (normalize: Normalizer)
      ensures Valid() && candidates == [] && norm == normalize
    {
      candidates := [];
      seen := {};
      norm := normalize;
    }

    /** add_url_candidate: normalise, drop an absent or already seen URL, otherwise record and append it. */
    method Add(url: Option<string>, provider: string)
      requires Valid()
      modifies this
      ensures Valid()
      ensures candidates == Added(old(candidates), (url, provider), norm)
    {
      var normalized := norm(url);
      if normalized.None? {
        return;
      }
      if normalized.value in seen {
        return;
      }
      AddedDistinct(candidates, (url, provider), norm);
      seen := seen + {normalized.value};
      candidates := candidates + [(normalized.value, provider)];
      assert UrlSet(candidates) == old(UrlSet(candidates)) + {normalized.value};
    }

    /** The adds of a list of proposals, one after another. */
    method AddEach(ps: seq<Proposal>)
      requires Valid()
      modifies this
      ensures Valid()
      ensures candidates == AddAll(old(candidates), ps, norm)
    {
      var i := 0;
      while i < |ps|
        invariant 0 <= i <= |ps|
        invariant Valid()
        invariant AddAll(candidates, ps[i..], norm) == AddAll(old(candidates), ps, norm)
      {
        assert ps[i..][1..] == ps[i + 1..];
        Add(ps[i].0, ps[i].1);
        i := i + 1;
      }
      assert ps[i..] == [];
    }
  }

  /** The arXiv PDF URL of a text, as a proposal when there is one. */
  function ArxivProposal(text: string, provider: string): (r: seq<Proposal>)
    ensures |r| <= 1
  {
    match ArxivPdfUrl(text)
    case None => []
    case Some(u) => [(Some(u), provider)]
  }

  /** The proposals drawn from the entry's url and eprint fields, in order. */
  function EntryProposals(entry: Entry): (r: seq<Proposal>)
  {
    var entryUrl := Strip(Field(entry, "url"));
    var eprint := Strip(Field(entry, "eprint"));
    (if entryUrl == "" then []
     else ArxivProposal(entryUrl, "entry_arxiv")
          + (if IsPdfLikeUrl(entryUrl) then [(Some(entryUrl), "entry_url_pdf")] else [])
          + [(Some(entryUrl), "entry_url")])
    + (if eprint == "" then [] else ArxivProposal(eprint, "entry_eprint"))
  }

  /** add_direct_publisher_candidates: the four dl.acm.org PDF and ePDF links for an ACM DOI. */
  function DirectPublisherProposals(doi: string): (r: seq<Proposal>)
    ensures !IsAcmDoi(Some(doi)) ==> r == []
    ensures IsAcmDoi(Some(doi)) ==> |r| == 4
  {
    if doi == "" || !IsAcmDoi(Some(doi)) then []
    else
      var q := Quote(doi);
      [(Some("https://dl.acm.org/doi/pdf/" + q), "acm_direct_pdf"),
       (Some("https://dl.acm.org/doi/pdf/" + q + "?download=true"), "acm_direct_pdf"),
       (Some("https://dl.acm.org/doi/epdf/" + q), "acm_direct_epdf"),
       (Some("https://dl.acm.org/doi/epdf/" + q + "?download=true"), "acm_direct_epdf")]
  }

  /** The proposals that need a DOI: the doi.org resolver, then the ACM direct links. */
  function DoiProposals(doi: string): (r: seq<Proposal>)
    ensures |r| >= 1 && r[0] == (Some("https://doi.org/" + Quote(doi)), "doi_resolver")
  {
    [(Some("https://doi.org/" + Quote(doi)), "doi_resolver")] + DirectPublisherProposals(doi)
  }

  /**
   * collect_candidate_urls: the entry's own links, then (with a DOI) the
   * resolver, the ACM links and the URLs the OpenAlex, Semantic Scholar and
   * Unpaywall lookups returned (`lookups`, in the order they are read).
   */
  method CollectCandidateUrls(entry: Entry, doi: Option<string>, lookups: seq<Proposal>) returns (q: CandidateList)
    ensures fresh(q) && q.Valid() && q.norm == NormalizeUrl
    ensures q.candidates == AddAll([], CandidateProposals(entry, doi, lookups), NormalizeUrl)
  {
    q := new CandidateList(NormalizeUrl);
    q.AddEach(EntryProposals(entry));
    if doi.None? || doi.value == "" {
      return;
    }
    q.AddEach(DoiProposals(doi.value));
    q.AddEach(lookups);
    AddAllAppend([], EntryProposals(entry), DoiProposals(doi.value), NormalizeUrl);
    AddAllAppend([], EntryProposals(entry) + DoiProposals(doi.value), lookups, NormalizeUrl);
  }

  /** Every add collect_candidate_urls makes, in order: the DOI-based ones only with a DOI. */
  function CandidateProposals(entry: Entry, doi: Option<string>, lookups: seq<Proposal>): (r: seq<Proposal>)
    ensures EntryProposals(entry) <= r
  {
    if doi.None? || doi.value == "" then EntryProposals(entry)
    else EntryProposals(entry) + DoiProposals(doi.value) + lookups
  }

  /** With a DOI, the doi.org resolver link is always among the candidates. */
  lemma ResolverAlwaysListed(entry: Entry, doi: string, lookups: seq<Proposal>)
    requires doi != "" && NormalizeUrl(Some("https://doi.org/" + Quote(doi))).Some?
    ensures NormalizeUrl(Some("https://doi.org/" + Quote(doi))).value
            in UrlSet(AddAll([], CandidateProposals(entry, Some(doi), lookups), NormalizeUrl))
  {
    var ps := CandidateProposals(entry, Some(doi), lookups);
    var k := |EntryProposals(entry)|;
    assert ps[k] == DoiProposals(doi)[0];
    AddAllComplete([], ps, NormalizeUrl, NormalizeUrl(Some("https://doi.org/" + Quote(doi))).value);
  }

  /** An entry whose url field names an arXiv paper gets the arXiv PDF as its first candidate. */
  lemma ArxivEntryFirst(entry: Entry, pdf: string)
    requires Strip(Field(entry, "url")) != "" && ArxivPdfUrl(Strip(Field(entry, "url"))) == Some(pdf)
    requires NormalizeUrl(Some(pdf)).Some?
    ensures |AddAll([], EntryProposals(entry), NormalizeUrl)| > 0
    ensures AddAll([], EntryProposals(entry), NormalizeUrl)[0] == (NormalizeUrl(Some(pdf)).value, "entry_arxiv")
  {
    var ps := EntryProposals(entry);
    assert ps[0] == (Some(pdf), "entry_arxiv");
    var first := Added([], ps[0], NormalizeUrl);
    assert |first| == 1;
    assert AddAll([], ps, NormalizeUrl) == AddAll(first, ps[1..], NormalizeUrl);
  }

  // ------------------------------------------------------------------
  // The download loop of run
  // ------------------------------------------------------------------

  /** What discover_landing_candidates yields per landing page; a page not in the map yields nothing. */
  type Landing = map<string, seq<Proposal>>

  function LandingOf(landing: Landing, url: string): seq<Proposal>
  {
    if url in landing then landing[url] else []
  }

  /** The discoveries of the listed URLs, in list order. */
  function Discovered(cs: seq<Candidate>, landing: Landing): seq<Proposal>
  {
    if |cs| == 0 then [] else Discovered(cs[..|cs| - 1], landing) + LandingOf(landing, cs[|cs| - 1].0)
  }

  /** Every URL some landing page can add. */
  function Reachable(landing: Landing, norm: Normalizer): set<string>
  {
    set u, k | u in landing && 0 <= k < |landing[u]| && norm(landing[u][k].0).Some? :: norm(landing[u][k].0).value
  }

  /** The providers of the listed candidates. */
  function Providers(cs: seq<Candidate>): set<string>
  {
    set c | c in cs :: c.1
  }

  lemma ProvidersSnoc(cs: seq<Candidate>, i: nat)
    requires i < |cs|
    ensures Providers(cs[..i + 1]) == Providers(cs[..i]) + {cs[i].1}
  {
    assert cs[..i + 1] == cs[..i] + [cs[i]];
  }

  /** A subset is no larger than its superset. */
  lemma SubsetCard<T>(a: set<T>, b: set<T>)
    requires a <= b
    ensures |a| <= |b|
    decreases |b|
  {
    if a != {} {
      var x :| x in a;
      SubsetCard(a - {x}, b - {x});
    }
  }

  /** A landing proposal of a listed URL is among the discoveries of the list. */
  lemma {:induction false} DiscoveredProposes(cs: seq<Candidate>, landing: Landing, norm: Normalizer, j: nat, u: string)
    requires j < |cs| && Proposes(LandingOf(landing, cs[j].0), u, norm)
    ensures Proposes(Discovered(cs, landing), u, norm)
    decreases |cs|
  {
    var front := Discovered(cs[..|cs| - 1], landing);
    var last := LandingOf(landing, cs[|cs| - 1].0);
    if j == |cs| - 1 {
      var k :| 0 <= k < |last| && norm(last[k].0) == Some(u);
      assert (front + last)[|front| + k] == last[k];
    } else {
      assert cs[..|cs| - 1][j] == cs[j];
      DiscoveredProposes(cs[..|cs| - 1], landing, norm, j, u);
      var k :| 0 <= k < |front| && norm(front[k].0) == Some(u);
      assert (front + last)[k] == front[k];
    }
  }

  /** A URL added from a landing page is reachable. */
  lemma LandingReachable(landing: Landing, norm: Normalizer, url: string, u: string)
    requires Proposes(LandingOf(landing, url), u, norm)
    ensures u in Reachable(landing, norm)
  {
    var k :| 0 <= k < |LandingOf(landing, url)| && norm(LandingOf(landing, url)[k].0) == Some(u);
    assert url in landing && norm(landing[url][k].0).value == u;
  }

  /**
   * The candidate loop of run: walk the list in order, fetch each URL, stop
   * at the first accepted body, and after a failed fetch append what its
   * landing page yields (through add_url_candidate, so nothing repeats).
   * `fetchPdf` is what fetch_pdf_bytes returns for each URL (AcceptFetch of
   * the response the URL gets); `tried` counts the candidates fetched and
   * `attempted` collects their providers.
   */
  method DownloadLoop(q: CandidateList, fetchPdf: string -> Option<Fetched>, landing: Landing)
    returns (hit: Option<(Fetched, string)>, tried: nat, attempted: set<string>)
    requires q.Valid()
    modifies q
    ensures q.Valid()
    ensures old(q.candidates) <= q.candidates && tried <= |q.candidates|
    ensures attempted == Providers(q.candidates[..tried])
    ensures hit.None? ==> tried == |q.candidates|
    ensures hit.Some? ==> tried > 0 && hit.value.1 == q.candidates[tried - 1].1
                          && fetchPdf(q.candidates[tried - 1].0) == Some(hit.value.0)
    ensures hit.None? ==> AllFail(q.candidates[..tried], fetchPdf)
                          && q.candidates == AddAll(old(q.candidates), Discovered(q.candidates[..tried], landing), q.norm)
    ensures hit.Some? ==> AllFail(q.candidates[..tried - 1], fetchPdf)
                          && q.candidates == AddAll(old(q.candidates), Discovered(q.candidates[..tried - 1], landing), q.norm)
  {
    ghost var start := q.candidates;
    ghost var universe := UrlSet(start) + Reachable(landing, q.norm);
    tried := 0;
    attempted := {};
    while tried < |q.candidates|
      invariant q.Valid()
      invariant 0 <= tried <= |q.candidates| && start <= q.candidates
      invariant q.seen <= universe
      invariant attempted == Providers(q.candidates[..tried])
      invariant AllFail(q.candidates[..tried], fetchPdf)
      invariant q.candidates == AddAll(old(q.candidates), Discovered(q.candidates[..tried], landing), q.norm)
      decreases |universe| - tried
    {
      SubsetCard(q.seen, universe);
      ghost var before := q.candidates;
      var provider := q.candidates[tried].1;
      ProvidersSnoc(before, tried);
      var fetched := TryCandidate(q, tried, fetchPdf, landing, start, universe);
      if fetched.Some? {
        assert q.candidates == before;
        hit := Some((fetched.value, provider));
        attempted := attempted + {provider};
        tried := tried + 1;
        return;
      }
      AllFailSnoc(before, tried, fetchPdf);
      attempted := attempted + {provider};
      tried := tried + 1;
      assert q.candidates[..tried] == before[..tried];
    }
    hit := None;
    assert AllFail(q.candidates[..tried], fetchPdf);
  }

  /**
   * One turn of the candidate loop: fetch the candidate at position i and,
   * when that fails, add what its landing page yields.
   */
  method TryCandidate(q: CandidateList, i: nat, fetchPdf: string -> Option<Fetched>, landing: Landing,
                      ghost start: seq<Candidate>, ghost universe: set<string>)
    returns (fetched: Option<Fetched>)
    requires q.Valid() && i < |q.candidates|
    requires universe == UrlSet(start) + Reachable(landing, q.norm) && q.seen <= universe
    requires q.candidates == AddAll(start, Discovered(q.candidates[..i], landing), q.norm)
    modifies q
    ensures q.Valid() && q.seen <= universe && old(q.candidates) <= q.candidates
    ensures q.candidates[..i + 1] == old(q.candidates)[..i + 1]
    ensures fetched == fetchPdf(old(q.candidates)[i].0)
    ensures fetched.Some? ==> q.candidates == old(q.candidates)
    ensures fetched.None? ==> q.candidates == AddAll(start, Discovered(q.candidates[..i + 1], landing), q.norm)
  {
    var url := q.candidates[i].0;
    fetched := fetchPdf(url);
    if fetched.None? {
      ghost var before := q.candidates;
      q.AddEach(LandingOf(landing, url));
      FailedStep(start, before, q.candidates, i + 1, landing, q.norm, universe);
    }
  }

  /** No candidate of the list yields an accepted body. */
  predicate AllFail(cs: seq<Candidate>, fetchPdf: string -> Option<Fetched>)
  {
    forall j :: 0 <= j < |cs| ==> fetchPdf(cs[j].0).None?
  }

  lemma AllFailSnoc(cs: seq<Candidate>, i: nat, fetchPdf: string -> Option<Fetched>)
    requires i < |cs| && AllFail(cs[..i], fetchPdf) && fetchPdf(cs[i].0).None?
    ensures AllFail(cs[..i + 1], fetchPdf)
  {
    assert cs[..i + 1] == cs[..i] + [cs[i]];
  }

  /** After a failed fetch of the tried-th candidate, its landing proposals join the discoveries. */
  lemma FailedStep(start: seq<Candidate>, before: seq<Candidate>, after: seq<Candidate>, tried: nat,
                   landing: Landing, norm: Normalizer, universe: set<string>)
    requires 0 < tried <= |before|
    requires before == AddAll(start, Discovered(before[..tried - 1], landing), norm)
    requires after == AddAll(before, LandingOf(landing, before[tried - 1].0), norm)
    requires universe == UrlSet(start) + Reachable(landing, norm) && UrlSet(before) <= universe
    ensures after[..tried] == before[..tried]
    ensures after == AddAll(start, Discovered(after[..tried], landing), norm)
    ensures UrlSet(after) <= universe
  {
    var url := before[tried - 1].0;
    assert after[..tried] == before[..tried];
    assert before[..tried][..tried - 1] == before[..tried - 1];
    assert Discovered(after[..tried], landing) == Discovered(before[..tried - 1], landing) + LandingOf(landing, url);
    AddAllAppend(start, Discovered(before[..tried - 1], landing), LandingOf(landing, url), norm);
    forall u | u in UrlSet(after) ensures u in universe {
      AddAllSound(before, LandingOf(landing, url), norm, u);
      if u !in UrlSet(before) {
        LandingReachable(landing, norm, url, u);
      }
    }
  }

  /**
   * When every candidate fails, the list is closed under discovery: every
   * URL a listed landing page proposes is listed.
   */
  lemma DownloadExhaustive(start: seq<Candidate>, cs: seq<Candidate>, landing: Landing, norm: Normalizer, j: nat, u: string)
    requires cs == AddAll(start, Discovered(cs, landing), norm)
    requires j < |cs| && Proposes(LandingOf(landing, cs[j].0), u, norm)
    ensures u in UrlSet(cs)
  {
    DiscoveredProposes(cs, landing, norm, j, u);
    AddAllComplete(start, Discovered(cs, landing), norm, u);
  }
}
