/**
 * The shared PDF library: canonical DOI/URL keys and the on-disk index that
 * maps each canonical key to one record (status, file, provenance, the
 * projects/steps/entries that referenced it, failure bookkeeping).
 *
 * The index is a JSON object kept in memory as a class whose `records`
 * dictionary is an insertion-ordered map (`order` lists the keys in
 * insertion order, as a Python dict iterates them).
 */
module PdfLibrary {
  import opened Wrappers
  import opened Text
  import opened Bib
  import Perm

  // ------------------------------------------------------------------
  // Percent-decoding stand-in for urllib.parse.unquote
  // ------------------------------------------------------------------

  predicate IsHex(c: char) { IsDigit(c) || 'a' <= c <= 'f' || 'A' <= c <= 'F' }

  function HexValue(c: char): (v: nat)
    requires IsHex(c)
    ensures v < 16
  {
    if IsDigit(c) then DigitValue(c)
    else if 'a' <= c <= 'f' then c as int - 'a' as int + 10
    else c as int - 'A' as int + 10
  }

  /** Every `%XX` (two hex digits) becomes the character with that code; all else is kept. */
  function Unquote(s: string): (r: string)
    ensures '%' !in s ==> r == s
    decreases |s|
  {
    if |s| == 0 then ""
    else if |s| >= 3 && s[0] == '%' && IsHex(s[1]) && IsHex(s[2]) then
      [(HexValue(s[1]) * 16 + HexValue(s[2])) as char] + Unquote(s[3..])
    else [s[0]] + Unquote(s[1..])
  }

  // ------------------------------------------------------------------
  // normalize_doi
  // ------------------------------------------------------------------

  const Braces: set<char> := {'{', '}'}

  /** Removes a leading `http(s)://(dx.)doi.org/`, compared case-insensitively. */
  function DropDoiResolver(v: string): (r: string)
    ensures |r| <= |v| && r == v[|v| - |r|..]
  {
    if StartsWithIgnoreCase(v, "https://dx.doi.org/") then v[19..]
    else if StartsWithIgnoreCase(v, "http://dx.doi.org/") then v[18..]
    else if StartsWithIgnoreCase(v, "https://doi.org/") then v[16..]
    else if StartsWithIgnoreCase(v, "http://doi.org/") then v[15..]
    else v
  }

  /** Removes a leading `doi:` (any case) and the whitespace after it. */
  function DropDoiLabel(v: string): (r: string)
    ensures |r| <= |v| && r == v[|v| - |r|..]
    ensures !StartsWithIgnoreCase(v, "doi:") ==> r == v
  {
    if StartsWithIgnoreCase(v, "doi:") then
      StripStartFacts(v[4..], Whitespace);
      var r := StripStart(v[4..], Whitespace);
      assert v[4..][|v| - 4 - |r|..] == v[|v| - |r|..];
      r
    else v
  }

  /** Number of leading ASCII digits. */
  function DigitRun(s: string): (n: nat)
    ensures n <= |s|
    ensures forall i :: 0 <= i < n ==> IsDigit(s[i])
    ensures n < |s| ==> !IsDigit(s[n])
  {
    if |s| == 0 || !IsDigit(s[0]) then 0 else 1 + DigitRun(s[1..])
  }

  /**
   * `^10\.\d{4,9}/\S+` matched up to the very end of the text: a registrant
   * code of 4 to 9 digits, a slash, and a non-empty suffix without whitespace.
   */
  predicate DoiShape(v: string)
  {
    && StartsWith(v, "10.")
    && var n := DigitRun(v[3..]);
    && 4 <= n <= 9
    && 3 + n < |v| && v[3 + n] == '/'
    && 3 + n + 1 < |v|
    && (forall i :: 3 + n + 1 <= i < |v| ==> !IsSpace(v[i]))
  }

  /**
   * The same pattern anchored with Python's `$`, which also matches just
   * before a final newline.
   */
  predicate DoiShapeDollar(v: string)
  {
    DoiShape(v) || (|v| > 0 && v[|v| - 1] == '\n' && DoiShape(v[..|v| - 1]))
  }

  /** strip, strip("{}"), unquote, drop backslashes, strip. */
  function DoiUnwrap(raw: string): (r: string)
    ensures '\\' !in r
  {
    Strip(RemoveChar(Unquote(StripSet(Strip(raw), Braces)), '\\'))
  }

  /** Drops the resolver URL and `doi:` label, then everything from the first `?` and from the first `#`. */
  function DoiCore(v: string): (r: string)
    ensures '?' !in r && '#' !in r
    ensures '\\' !in v ==> '\\' !in r
  {
    var w := DropDoiLabel(DropDoiResolver(v));
    assert forall c :: c in w ==> c in v;
    DoiTail(Before(w, '?'))
  }

  /** Drops everything from the first `#`, then strips whitespace and slashes. */
  function DoiTail(b: string): (r: string)
    ensures '#' !in r
    ensures forall c :: c in r ==> c in b
  {
    StripSet(Strip(Before(b, '#')), {'/'})
  }

  /** The cleaning steps of normalize_doi, before the final shape test. */
  function CleanDoi(raw: string): (r: string)
    ensures NoUpper(r)
    ensures '?' !in r && '#' !in r && '\\' !in r
  {
    LowerDoi(DoiCore(DoiUnwrap(raw)))
  }

  /** lower(), which leaves the punctuation the cleaning removed absent. */
  function LowerDoi(v: string): (r: string)
    ensures NoUpper(r)
    ensures '?' !in v ==> '?' !in r
    ensures '#' !in v ==> '#' !in r
    ensures '\\' !in v ==> '\\' !in r
  {
    LowerCharsKept(v, '?');
    LowerCharsKept(v, '#');
    LowerCharsKept(v, '\\');
    LowerStrNoUpper(v);
    LowerStr(v)
  }

  /** normalize_doi as written: the final test uses `$`. */
  function NormalizeDoiAsWritten(raw: Option<string>): (r: Option<string>)
    ensures r.Some? ==> DoiShapeDollar(r.value)
  {
    if raw.None? || Strip(raw.value) == "" then None
    else
      var v := CleanDoi(raw.value);
      if v == "" || !DoiShapeDollar(v) then None else Some(v)
  }

  /**
   * normalize_doi with the shape anchored at the true end of the text: the
   * result is a lower-case DOI `10.<4-9 digits>/<suffix>` whose suffix has
   * no whitespace, and which carries no query, fragment or backslash.
   */
  function NormalizeDoi(raw: Option<string>): (r: Option<string>)
    ensures r.Some? ==> DoiShape(r.value) && NoUpper(r.value)
    ensures r.Some? ==> '?' !in r.value && '#' !in r.value && '\\' !in r.value
    ensures r.Some? ==> forall i :: 0 <= i < |r.value| ==> !IsSpace(r.value[i])
    ensures raw.None? ==> r.None?
    ensures raw.Some? && Strip(raw.value) == "" ==> r.None?
  {
    if raw.None? || Strip(raw.value) == "" then None
    else
      var v := CleanDoi(raw.value);
      if v == "" || !DoiShape(v) then None
      else
        DoiShapeNoSpace(v);
        Some(v)
  }

  lemma DoiShapeNoSpace(v: string)
    requires DoiShape(v)
    ensures forall i :: 0 <= i < |v| ==> !IsSpace(v[i])
  {
    var n := DigitRun(v[3..]);
    forall i | 0 <= i < |v|
      ensures !IsSpace(v[i])
    {
      if i < 3 {
        assert v[..3] == "10.";
        assert v[i] == "10."[i];
      } else if i < 3 + n {
        assert v[3..][i - 3] == v[i];
      }
    }
  }

  lemma LowerCharsKept(s: string, c: char)
    requires !IsAlpha(c)
    ensures c !in s ==> c !in LowerStr(s)
  {
  }

  /**
   * The trailing-newline discrepancy: a DOI field `10.1234/abc\n/` survives
   * strip() (it ends with `/`), strip("/") then exposes the newline, and `$`
   * accepts it, so the as-written normaliser returns a DOI with whitespace.
   */
  lemma NormalizeDoiTrailingNewline()
    ensures NormalizeDoiAsWritten(Some("10.1234/abc\n/")) == Some("10.1234/abc\n")
    ensures NormalizeDoi(Some("10.1234/abc\n/")).None?
  {
    NewlineCleaned();
    NewlineShape();
  }

  lemma NewlineCleaned()
    ensures CleanDoi("10.1234/abc\n/") == "10.1234/abc\n"
    ensures Strip("10.1234/abc\n/") != ""
  {
    var v := "10.1234/abc\n";
    assert "10.1234/abc\n/" == v + "/";
    assert '%' !in v && '\\' !in v && '?' !in v && '#' !in v && NoUpper(v);
    SlashAfterNewline(v);
  }

  /** A text ending in a newline and then a slash loses only the slash to the cleaning. */
  lemma SlashAfterNewline(v: string)
    requires |v| > 1 && v[0] == '1' && v[|v| - 1] == '\n'
    requires '%' !in v && '\\' !in v && '?' !in v && '#' !in v && NoUpper(v)
    ensures CleanDoi(v + "/") == v && Strip(v + "/") != ""
  {
    var raw := v + "/";
    assert '%' !in raw && '\\' !in raw by {
      assert forall i :: 0 <= i < |v| ==> raw[i] == v[i];
    }
    assert raw[0] == '1';
    DoiUnwrapKeeps(raw);
    StripNoEdges(raw, Whitespace);
    SlashAfterNewlineCore(v);
    ChainCore(raw, v);
    CleanReaches(raw, v);
  }

  lemma SlashAfterNewlineCore(v: string)
    requires |v| > 1 && v[0] == '1' && v[|v| - 1] == '\n' && '?' !in v && '#' !in v
    ensures DoiCore(v + "/") == v
  {
    var raw := v + "/";
    assert raw[0] == '1';
    DropPrefixesBare(raw);
    assert '?' !in raw && '#' !in raw by {
      assert forall i :: 0 <= i < |v| ==> raw[i] == v[i];
    }
    StripNoEdges(raw, Whitespace);
    assert StripSet(raw, {'/'}) == v by {
      assert StripStart(raw, {'/'}) == raw;
      assert raw[..|raw| - 1] == v;
      assert StripEnd(raw, {'/'}) == StripEnd(v, {'/'});
    }
  }

  lemma NewlineShape()
    ensures DoiShapeDollar("10.1234/abc\n") && !DoiShape("10.1234/abc\n")
  {
    var v := "10.1234/abc\n";
    assert v[..|v| - 1] == "10." + "1234" + "/abc";
    DigitRunPrefix("1234", "/abc");
    assert v[..|v| - 1][3..] == "1234" + "/abc";
    assert DoiShape(v[..|v| - 1]);
    assert v[3..] == "1234" + "/abc\n";
    DigitRunPrefix("1234", "/abc\n");
    assert IsSpace(v[|v| - 1]);
  }

  lemma {:induction false} DigitRunPrefix(a: string, b: string)
    requires forall i :: 0 <= i < |a| ==> IsDigit(a[i])
    requires |b| > 0 && !IsDigit(b[0])
    ensures DigitRun(a + b) == |a|
    decreases |a|
  {
    if |a| == 0 {
      assert a + b == b;
    } else {
      assert (a + b)[1..] == a[1..] + b;
      DigitRunPrefix(a[1..], b);
    }
  }

  /** A DOI already in canonical form: the shape, lower case, and none of the characters the cleaning touches. */
  predicate CanonicalDoi(d: string)
  {
    && DoiShape(d) && NoUpper(d)
    && d[|d| - 1] != '/'
    && forall i :: 0 <= i < |d| ==> d[i] !in {'{', '}', '%', '\\', '?', '#'}
  }

  /** Text the cleaning may append after a DOI: a query, optionally followed by a fragment. */
  predicate QueryTail(rest: string)
  {
    rest == "" || (rest[0] == '?' && forall i :: 0 <= i < |rest| ==> rest[i] !in {'{', '}', '%', '\\'} && !IsSpace(rest[i]))
  }

  /** The prefixes a DOI field may carry: none, a `doi:` label, or a resolver URL. */
  datatype DoiPrefix = NoPrefix | Label | Resolver | DxResolver
  {
    function Text(): (t: string)
      ensures this == NoPrefix <==> t == ""
      ensures forall i :: 0 <= i < |t| ==> t[i] != '%' && t[i] != '\\' && t[i] !in Braces && !IsSpace(t[i])
    {
      match this
      case NoPrefix => ""
      case Label => "doi:"
      case Resolver => "https://doi.org/"
      case DxResolver => "http://dx.doi.org/"
    }
  }

  /**
   * The forms a DOI field is written in all normalise to the same canonical
   * DOI: the bare DOI, a `doi:` label, a doi.org or dx.doi.org resolver
   * URL, each optionally followed by a query or fragment, and the DOI
   * wrapped in braces.
   */
  lemma NormalizeDoiForms(d: string, rest: string, prefix: DoiPrefix)
    requires CanonicalDoi(d)
    requires QueryTail(rest)
    ensures NormalizeDoi(Some(prefix.Text() + d + rest)) == Some(d)
    ensures NormalizeDoi(Some("{" + d + "}")) == Some(d)
  {
    NormalizePrefixed(d, rest, prefix);
    NormalizeBraced(d);
  }

  lemma CanonicalEdges(d: string)
    requires CanonicalDoi(d)
    ensures |d| > 3 && d[0] == '1'
    ensures d[|d| - 1] !in Braces && !IsSpace(d[|d| - 1])
    ensures '%' !in d && '\\' !in d && '?' !in d
  {
    assert "10." <= d;
    assert d[0] == "10."[0];
    DoiShapeNoSpace(d);
  }

  lemma CanonicalCore(d: string)
    requires CanonicalDoi(d)
    ensures DoiCore(d) == d && DoiTail(d) == d
  {
    CanonicalEdges(d);
    DoiShapeNoSpace(d);
    DropPrefixesBare(d);
    assert Before(d, '#') == d;
    StripNoEdges(d, Whitespace);
    StripNoEdges(d, {'/'});
  }

  lemma CleanReaches(raw: string, d: string)
    requires NoUpper(d) && DoiCore(DoiUnwrap(raw)) == d
    ensures CleanDoi(raw) == d
  {
    LowerStrNoUpperId(d);
    assert LowerDoi(d) == d;
  }

  /** Once the cleaning steps reach a DOI of the right shape, normalize_doi returns it. */
  lemma NormalizeReaches(raw: string, d: string)
    requires DoiShape(d) && CleanDoi(raw) == d && Strip(raw) != ""
    ensures NormalizeDoi(Some(raw)) == Some(d)
  {
  }

  lemma DoiUnwrapKeeps(s: string)
    requires |s| > 0 ==> !IsSpace(s[0]) && !IsSpace(s[|s| - 1]) && s[0] !in Braces && s[|s| - 1] !in Braces
    requires '%' !in s && '\\' !in s
    ensures DoiUnwrap(s) == s
  {
    StripNoEdges(s, Whitespace);
    StripNoEdges(s, Braces);
  }

  lemma DropPrefixesBare(t: string)
    requires |t| > 0 && t[0] == '1'
    ensures DropDoiLabel(DropDoiResolver(t)) == t
  {
    assert Lower(t[0]) == '1';
    assert !StartsWithIgnoreCase(t, "https://dx.doi.org/");
    assert !StartsWithIgnoreCase(t, "http://dx.doi.org/");
    assert !StartsWithIgnoreCase(t, "https://doi.org/");
    assert !StartsWithIgnoreCase(t, "http://doi.org/");
    assert DropDoiResolver(t) == t;
    assert !StartsWithIgnoreCase(t, "doi:");
  }

  lemma DropLabelPrefix(t: string)
    requires |t| > 0 && t[0] == '1'
    ensures DropDoiLabel(DropDoiResolver("doi:" + t)) == t
  {
    var s := "doi:" + t;
    StartsWithIgnoreCaseOwn("doi:", t);
    assert s[4..] == t;
    LabelStep(s, t);
  }

  lemma LabelStep(s: string, t: string)
    requires StartsWithIgnoreCase(s, "doi:") && |s| == |t| + 4 && s[4..] == t
    requires |t| > 0 && t[0] == '1'
    ensures DropDoiLabel(DropDoiResolver(s)) == t
  {
    NotResolver(s);
    assert DropDoiLabel(s) == StripStart(t, Whitespace);
    StripStartNone(t, Whitespace);
  }

  /** Text not starting with `h` in either case carries no resolver prefix. */
  lemma NotResolver(s: string)
    requires |s| > 0 && Lower(s[0]) != 'h'
    ensures DropDoiResolver(s) == s
  {
  }

  lemma DropResolverPrefix(t: string)
    requires |t| > 0 && t[0] == '1'
    ensures DropDoiLabel(DropDoiResolver("https://doi.org/" + t)) == t
  {
    var p := "https://doi.org/";
    var s := p + t;
    StartsWithIgnoreCaseOwn(p, t);
    StartsWithIgnoreCaseMismatch(s, p, "https://dx.doi.org/", 9);
    StartsWithIgnoreCaseMismatch(s, p, "http://dx.doi.org/", 4);
    assert s[16..] == t;
    DropPrefixesBare(t);
  }

  lemma DropDxResolverPrefix(t: string)
    requires |t| > 0 && t[0] == '1'
    ensures DropDoiLabel(DropDoiResolver("http://dx.doi.org/" + t)) == t
  {
    var p := "http://dx.doi.org/";
    var s := p + t;
    StartsWithIgnoreCaseOwn(p, t);
    StartsWithIgnoreCaseMismatch(s, p, "https://dx.doi.org/", 4);
    assert s[18..] == t;
    DropPrefixesBare(t);
  }

  lemma DropPrefixesLabelled(prefix: DoiPrefix, t: string)
    requires |t| > 0 && t[0] == '1'
    ensures DropDoiLabel(DropDoiResolver(prefix.Text() + t)) == t
  {
    match prefix
    case NoPrefix =>
      assert prefix.Text() + t == t;
      DropPrefixesBare(t);
    case Label => DropLabelPrefix(t);
    case Resolver => DropResolverPrefix(t);
    case DxResolver => DropDxResolverPrefix(t);
  }

  lemma NormalizePrefixed(d: string, rest: string, prefix: DoiPrefix)
    requires CanonicalDoi(d) && QueryTail(rest)
    ensures NormalizeDoi(Some(prefix.Text() + d + rest)) == Some(d)
  {
    var raw := prefix.Text() + d + rest;
    CorePrefixed(d, rest, prefix);
    CleanReaches(raw, d);
    NormalizeReaches(raw, d);
  }

  lemma CorePrefixed(d: string, rest: string, prefix: DoiPrefix)
    requires CanonicalDoi(d) && QueryTail(rest)
    ensures DoiCore(DoiUnwrap(prefix.Text() + d + rest)) == d
    ensures Strip(prefix.Text() + d + rest) != ""
  {
    UnwrapPrefixed(d, rest, prefix.Text());
    CoreOfPrefixed(d, rest, prefix);
    ChainCore(prefix.Text() + d + rest, d);
  }

  lemma ChainCore(raw: string, d: string)
    requires DoiUnwrap(raw) == raw && DoiCore(raw) == d
    ensures DoiCore(DoiUnwrap(raw)) == d
  {
  }

  lemma CoreOfPrefixed(d: string, rest: string, prefix: DoiPrefix)
    requires CanonicalDoi(d) && QueryTail(rest)
    ensures DoiCore(prefix.Text() + d + rest) == d
  {
    CanonicalEdges(d);
    CanonicalCore(d);
    CoreAfterPrefix(d, rest, prefix);
  }

  lemma CoreAfterPrefix(d: string, rest: string, prefix: DoiPrefix)
    requires |d| > 0 && d[0] == '1' && '?' !in d && (rest == "" || rest[0] == '?')
    ensures DoiCore(prefix.Text() + d + rest) == DoiTail(d)
  {
    var raw := prefix.Text() + d + rest;
    assert raw == prefix.Text() + (d + rest);
    DropPrefixesLabelled(prefix, d + rest);
    BeforeConcatPrefix(d, rest, '?');
  }

  lemma UnwrapPrefixed(d: string, rest: string, p: string)
    requires CanonicalDoi(d) && QueryTail(rest)
    requires forall i :: 0 <= i < |p| ==> p[i] != '%' && p[i] != '\\' && p[i] !in Braces && !IsSpace(p[i])
    ensures DoiUnwrap(p + d + rest) == p + d + rest
    ensures Strip(p + d + rest) != ""
  {
    CanonicalEdges(d);
    var raw := p + d + rest;
    assert raw[0] == (if p == "" then d[0] else p[0]);
    assert raw[|raw| - 1] == (if rest == "" then d[|d| - 1] else rest[|rest| - 1]);
    assert '%' !in raw && '\\' !in raw by {
      forall i | 0 <= i < |raw| ensures raw[i] != '%' && raw[i] != '\\' {
        if i < |p| { assert raw[i] == p[i]; }
        else if i < |p| + |d| { assert raw[i] == d[i - |p|]; }
        else { assert raw[i] == rest[i - |p| - |d|]; }
      }
    }
    DoiUnwrapKeeps(raw);
    StripNoEdges(raw, Whitespace);
  }

  lemma NormalizeBraced(d: string)
    requires CanonicalDoi(d)
    ensures NormalizeDoi(Some("{" + d + "}")) == Some(d)
  {
    CoreBraced(d);
    CleanReaches("{" + d + "}", d);
    NormalizeReaches("{" + d + "}", d);
  }

  lemma CoreBraced(d: string)
    requires CanonicalDoi(d)
    ensures DoiCore(DoiUnwrap("{" + d + "}")) == d
    ensures Strip("{" + d + "}") != ""
  {
    CanonicalEdges(d);
    DoiShapeNoSpace(d);
    UnwrapBraced(d);
    CanonicalCore(d);
  }

  lemma UnwrapBraced(d: string)
    requires |d| > 0 && d[0] == '1' && d[|d| - 1] !in Braces && !IsSpace(d[|d| - 1])
    requires '%' !in d && '\\' !in d
    ensures DoiUnwrap("{" + d + "}") == d
    ensures Strip("{" + d + "}") != ""
  {
    var raw := "{" + d + "}";
    assert raw[1..|raw| - 1] == d;
    UnwrapBracedAt(raw, d);
    UnwrapSteps(raw, d);
  }

  lemma UnwrapBracedAt(raw: string, d: string)
    requires |raw| >= 2 && raw[0] == '{' && raw[|raw| - 1] == '}' && raw[1..|raw| - 1] == d
    requires |d| > 0 && d[0] == '1' && d[|d| - 1] !in Braces && !IsSpace(d[|d| - 1])
    ensures Strip(raw) == raw && StripSet(raw, Braces) == d && Strip(d) == d
  {
    StripNoEdges(raw, Whitespace);
    StripBracesAt(raw, d);
    StripNoEdges(d, Whitespace);
  }

  lemma StripBracesAt(raw: string, d: string)
    requires |raw| >= 2 && raw[0] == '{' && raw[|raw| - 1] == '}' && raw[1..|raw| - 1] == d
    requires |d| > 0 && d[0] !in Braces && d[|d| - 1] !in Braces
    ensures StripSet(raw, Braces) == d
  {
    assert StripStart(raw, Braces) == raw[1..] by {
      StripStartNone(raw[1..], Braces);
    }
    assert StripEnd(raw[1..], Braces) == d by {
      assert raw[1..][..|raw| - 2] == d;
    }
  }

  lemma UnwrapSteps(raw: string, mid: string)
    requires Strip(raw) == raw && StripSet(raw, Braces) == mid
    requires '%' !in mid && '\\' !in mid && Strip(mid) == mid
    ensures DoiUnwrap(raw) == mid
  {
  }

  lemma StripNoEdges(s: string, cs: set<char>)
    requires |s| > 0 ==> s[0] !in cs && s[|s| - 1] !in cs
    ensures StripSet(s, cs) == s
  {
  }

  lemma BeforeConcatPrefix(a: string, b: string, c: char)
    requires c !in a
    requires b == "" || b[0] == c
    ensures Before(a + b, c) == a
  {
    var s := a + b;
    if b == "" {
      assert s == a;
    } else {
      assert s[..|a|] == a;
      IndexOfAt(s, c, |a|);
    }
  }

  // ------------------------------------------------------------------
  // normalize_url
  // ------------------------------------------------------------------

  /** The pieces urllib.parse.urlparse yields for an http(s) URL. */
  datatype UrlParts = UrlParts(scheme: string, netloc: string, path: string, query: string)

  /** Drops `;params` from the last path segment, as urlparse does. */
  function DropParams(path: string): (r: string)
    ensures r <= path
    ensures forall c :: c in r ==> c in path
  {
    var lastSlash := LastIndexOf(path, '/');
    var tail := path[lastSlash..];
    match IndexOf(tail, ';')
    case None => path
    case Some(i) => path[..lastSlash + i]
  }

  /** Index of the last c in s, or 0 if there is none. */
  function LastIndexOf(s: string, c: char): (n: nat)
    ensures n <= |s|
  {
    if |s| == 0 then 0
    else if s[|s| - 1] == c then |s| - 1
    else LastIndexOf(s[..|s| - 1], c)
  }

  predicate HttpScheme(scheme: string) { scheme == "http" || scheme == "https" }

  /** The lower-cased scheme before the first `:` and the text after it, when that scheme is http or https. */
  function SplitScheme(value: string): (r: Option<(string, string)>)
    ensures r.Some? ==> HttpScheme(r.value.0)
    ensures r.Some? ==> forall c :: c in r.value.1 ==> c in value
  {
    match IndexOf(value, ':')
    case None => None
    case Some(i) =>
      var scheme := LowerStr(value[..i]);
      if HttpScheme(scheme) then Some((scheme, value[i + 1..])) else None
  }

  const NetlocEnd: set<char> := {'/', '?', '#'}

  /** The network location after `//`, up to the first `/`, `?` or `#`, and the text after it. */
  function SplitNetloc(rest: string): (r: (string, string))
    ensures forall c :: c in r.0 ==> c !in NetlocEnd
    ensures forall c :: c in r.1 ==> c in rest
  {
    if StartsWith(rest, "//") then
      var t := rest[2..];
      var n := FirstOf(t, NetlocEnd);
      (t[..n], t[n..])
    else ("", rest)
  }

  /** The path and the query of what follows the network location; the fragment is cut off first. */
  function SplitQuery(after: string): (r: (string, string))
    ensures '#' !in r.0 && '#' !in r.1 && '?' !in r.0
  {
    var noFragment := Before(after, '#');
    var query := After(noFragment, '?');
    assert '#' !in query by {
      if '?' in noFragment {
        assert noFragment == Before(noFragment, '?') + ['?'] + query;
        assert forall k :: 0 <= k < |query| ==> query[k] == noFragment[|Before(noFragment, '?')| + 1 + k];
      }
    }
    (Before(noFragment, '?'), query)
  }

  /** urlparse restricted to what normalize_url reads; None when the scheme is not http/https. */
  function ParseHttpUrl(value: string): (r: Option<UrlParts>)
    ensures r.Some? ==> HttpScheme(r.value.scheme)
    ensures r.Some? ==> '#' !in r.value.netloc && '#' !in r.value.path && '#' !in r.value.query
    ensures r.Some? ==> '?' !in r.value.netloc && '?' !in r.value.path && '/' !in r.value.netloc
  {
    match SplitScheme(value)
    case None => None
    case Some((scheme, rest)) =>
      var (netloc, after) := SplitNetloc(rest);
      var (path, query) := SplitQuery(after);
      Some(UrlParts(scheme, netloc, DropParams(path), query))
  }

  /** `scheme://lower-case-host` + path, and `?query` when the query is non-empty; None for an empty host. */
  function UrlText(p: UrlParts): (r: Option<string>)
    ensures r.Some? <==> p.netloc != ""
    ensures r.Some? && HttpScheme(p.scheme) ==> StartsWith(r.value, "http://") || StartsWith(r.value, "https://")
    ensures HttpScheme(p.scheme) && '#' !in p.netloc && '#' !in p.path && '#' !in p.query && r.Some? ==> '#' !in r.value
  {
    var host := LowerStr(p.netloc);
    if host == "" then None
    else
      LowerCharsKept(p.netloc, '#');
      var tail := host + p.path + (if p.query != "" then "?" + p.query else "");
      SchemePrefix(p.scheme, tail);
      assert '#' !in "://" && '#' !in "?";
      Some(p.scheme + "://" + tail)
  }

  lemma SchemePrefix(scheme: string, tail: string)
    ensures HttpScheme(scheme) ==> StartsWith(scheme + "://" + tail, "http://") || StartsWith(scheme + "://" + tail, "https://")
  {
    if scheme == "http" {
      assert (scheme + "://" + tail)[..7] == "http://";
    } else if scheme == "https" {
      assert (scheme + "://" + tail)[..8] == "https://";
    }
  }

  /** What normalize_url does once the value is stripped and non-empty. */
  function NormalizeUrlValue(value: string): (r: Option<string>)
    ensures r.Some? ==> StartsWith(r.value, "http://") || StartsWith(r.value, "https://")
    ensures r.Some? ==> '#' !in r.value
  {
    match ParseHttpUrl(value)
    case None => None
    case Some(p) => UrlText(p)
  }

  /**
   * normalize_url: `scheme://lower-case-host` followed by the path and, when
   * non-empty, `?query`; the fragment is always dropped. None unless the
   * scheme is http or https and the host is non-empty.
   */
  function NormalizeUrl(raw: Option<string>): (r: Option<string>)
    ensures r.Some? ==> StartsWith(r.value, "http://") || StartsWith(r.value, "https://")
    ensures r.Some? ==> '#' !in r.value
    ensures raw.None? ==> r.None?
  {
    if raw.None? then None
    else
      var value := StripSet(Strip(raw.value), Braces);
      if value == "" then None else NormalizeUrlValue(value)
  }

  /** The text of a URL assembled from well-formed parts. */
  function UrlOf(scheme: string, host: string, path: string, query: string, fragment: string): string
  {
    scheme + ":" + ("//" + host + (path + ("?" + query + "#" + fragment)))
  }

  /** A host that urlparse reads as the whole network location. */
  predicate PlainHost(host: string)
  {
    |host| > 0 && forall i :: 0 <= i < |host| ==> host[i] !in NetlocEnd && host[i] != ':'
  }

  /** A path without query, fragment or `;params`, starting with `/` when present. */
  predicate PlainPath(path: string)
  {
    path == "" || (path[0] == '/' && forall i :: 0 <= i < |path| ==> path[i] != '?' && path[i] != '#' && path[i] != ';')
  }

  /**
   * A well-formed http(s) URL normalises to `scheme://lower-case-host + path`
   * plus `?query` when the query is non-empty, whatever fragment it carries.
   */
  lemma NormalizeUrlParts(scheme: string, host: string, path: string, query: string, fragment: string)
    requires HttpScheme(scheme) && PlainHost(host) && PlainPath(path)
    requires '#' !in query
    requires |fragment| > 0 ==> !IsSpace(fragment[|fragment| - 1]) && fragment[|fragment| - 1] !in Braces
    ensures NormalizeUrl(Some(UrlOf(scheme, host, path, query, fragment)))
         == Some(scheme + "://" + (LowerStr(host) + path + (if query != "" then "?" + query else "")))
  {
    var raw := UrlOf(scheme, host, path, query, fragment);
    UrlEdges(scheme, host, path, query, fragment);
    ParseUrlOf(scheme, host, path, query, fragment);
    NormalizeUrlReaches(raw, UrlParts(scheme, host, path, query));
  }

  lemma UrlEdges(scheme: string, host: string, path: string, query: string, fragment: string)
    requires HttpScheme(scheme)
    requires |fragment| > 0 ==> !IsSpace(fragment[|fragment| - 1]) && fragment[|fragment| - 1] !in Braces
    ensures StripSet(Strip(UrlOf(scheme, host, path, query, fragment)), Braces) == UrlOf(scheme, host, path, query, fragment)
    ensures UrlOf(scheme, host, path, query, fragment) != ""
  {
    var raw := UrlOf(scheme, host, path, query, fragment);
    assert raw[0] == 'h';
    assert raw[|raw| - 1] == if fragment == "" then '#' else fragment[|fragment| - 1];
    StripNoEdges(raw, Whitespace);
    StripNoEdges(raw, Braces);
  }

  lemma NormalizeUrlReaches(raw: string, p: UrlParts)
    requires StripSet(Strip(raw), Braces) == raw && raw != "" && ParseHttpUrl(raw) == Some(p)
    ensures NormalizeUrl(Some(raw)) == UrlText(p)
  {
    assert NormalizeUrlValue(raw) == UrlText(p);
  }

  lemma ParseUrlOf(scheme: string, host: string, path: string, query: string, fragment: string)
    requires HttpScheme(scheme) && PlainHost(host) && PlainPath(path) && '#' !in query
    ensures ParseHttpUrl(UrlOf(scheme, host, path, query, fragment)) == Some(UrlParts(scheme, host, path, query))
    ensures UrlText(UrlParts(scheme, host, path, query))
         == Some(scheme + "://" + (LowerStr(host) + path + (if query != "" then "?" + query else "")))
  {
    var rest := "//" + host + (path + ("?" + query + "#" + fragment));
    SchemeOf(scheme, rest);
    NetlocOf(host, path + ("?" + query + "#" + fragment));
    QueryOf(path, query, fragment);
    DropParamsNoSemicolon(path);
    UrlTextOf(scheme, host, path, query);
  }

  lemma SchemeOf(scheme: string, rest: string)
    requires HttpScheme(scheme)
    ensures SplitScheme(scheme + ":" + rest) == Some((scheme, rest))
  {
    var v := scheme + ":" + rest;
    assert v[..|scheme|] == scheme;
    IndexOfAt(v, ':', |scheme|);
    LowerStrNoUpperId(scheme);
    assert v[|scheme| + 1..] == rest;
  }

  lemma NetlocOf(host: string, tail: string)
    requires PlainHost(host)
    requires tail == "" || tail[0] in NetlocEnd
    ensures SplitNetloc("//" + host + tail) == (host, tail)
  {
    var rest := "//" + host + tail;
    assert rest[2..] == host + tail;
    if tail == "" {
      FirstOfAll(host, NetlocEnd);
      assert host + tail == host;
    } else {
      FirstOfPrefix(host, tail, NetlocEnd);
    }
    assert (host + tail)[..|host|] == host;
    assert (host + tail)[|host|..] == tail;
  }

  lemma QueryOf(path: string, query: string, fragment: string)
    requires PlainPath(path) && '#' !in query
    ensures SplitQuery(path + ("?" + query + "#" + fragment)) == (path, query)
  {
    var after := path + ("?" + query + "#" + fragment);
    var q := "?" + query;
    assert '#' !in path + q;
    assert after == (path + q) + ("#" + fragment);
    BeforeConcatPrefix(path + q, "#" + fragment, '#');
    assert '?' !in path;
    BeforeConcatPrefix(path, q, '?');
    assert path + q == path + ['?'] + query;
    AfterConcat(path, query, '?');
  }

  lemma AfterConcat(a: string, b: string, c: char)
    requires c !in a
    ensures After(a + [c] + b, c) == b
  {
    var s := a + [c] + b;
    assert s[..|a|] == a;
    IndexOfAt(s, c, |a|);
    assert s[|a| + 1..] == b;
  }

  lemma UrlTextOf(scheme: string, host: string, path: string, query: string)
    requires PlainHost(host)
    ensures UrlText(UrlParts(scheme, host, path, query))
         == Some(scheme + "://" + (LowerStr(host) + path + (if query != "" then "?" + query else "")))
  {
    assert |LowerStr(host)| > 0;
  }

  lemma FirstOfAll(a: string, cs: set<char>)
    requires forall i :: 0 <= i < |a| ==> a[i] !in cs
    ensures FirstOf(a, cs) == |a|
    decreases |a|
  {
    if |a| > 0 { FirstOfAll(a[1..], cs); }
  }

  lemma FirstOfPrefix(a: string, b: string, cs: set<char>)
    requires forall i :: 0 <= i < |a| ==> a[i] !in cs
    requires |b| > 0 && b[0] in cs
    ensures FirstOf(a + b, cs) == |a|
    decreases |a|
  {
    if |a| > 0 {
      assert (a + b)[1..] == a[1..] + b;
      FirstOfPrefix(a[1..], b, cs);
    } else {
      assert a + b == b;
    }
  }

  lemma DropParamsNoSemicolon(path: string)
    requires forall i :: 0 <= i < |path| ==> path[i] != ';'
    ensures DropParams(path) == path
  {
    var t := path[LastIndexOf(path, '/')..];
    assert ';' !in t by {
      forall k | 0 <= k < |t| ensures t[k] != ';' { assert t[k] == path[LastIndexOf(path, '/') + k]; }
    }
  }

  // ------------------------------------------------------------------
  // canonical_key_for_entry
  // ------------------------------------------------------------------

  /** The entry's DOI field (`doi` or else `DOI`), normalised. */
  function EntryDoi(e: Entry): Option<string>
  {
    NormalizeDoi(Some(OrElse(Field(e, "doi"), Field(e, "DOI"))))
  }

  /** The entry's URL field (`url` or else `URL`), normalised. */
  function EntryUrl(e: Entry): Option<string>
  {
    NormalizeUrl(Some(OrElse(Field(e, "url"), Field(e, "URL"))))
  }

  /** The key built from a normalised DOI, else a normalised URL. */
  function KeyFrom(doi: Option<string>, url: Option<string>): (r: Option<string>)
    ensures doi.Some? ==> r == Some("doi:" + doi.value)
    ensures doi.None? ==> (r.Some? <==> url.Some?)
    ensures doi.None? && url.Some? ==> r == Some("url:" + url.value)
  {
    if doi.Some? then Some("doi:" + doi.value)
    else if url.Some? then Some("url:" + url.value)
    else None
  }

  /**
   * canonical_key_for_entry: `doi:<DOI>` when the doi/DOI field normalises,
   * otherwise `url:<URL>` when the url/URL field normalises, otherwise None.
   */
  function CanonicalKey(e: Entry): (r: Option<string>)
    ensures EntryDoi(e).Some? ==> r == Some("doi:" + EntryDoi(e).value)
    ensures EntryDoi(e).None? ==> (r.Some? <==> EntryUrl(e).Some?)
    ensures EntryDoi(e).None? && EntryUrl(e).Some? ==> r == Some("url:" + EntryUrl(e).value)
  {
    KeyFrom(EntryDoi(e), EntryUrl(e))
  }

  /** The DOI a key stands for: the text after a `doi:` prefix (`key[4:]`). */
  function KeyDoi(key: string): (r: Option<string>)
    ensures r.Some? <==> StartsWith(key, "doi:")
  {
    if StartsWith(key, "doi:") then Some(key[4..]) else None
  }

  /** Reading the DOI back from a key gives the DOI the key was built from. */
  lemma KeyFromDoiRoundTrip(doi: Option<string>, url: Option<string>)
    requires KeyFrom(doi, url).Some?
    ensures KeyDoi(KeyFrom(doi, url).value) == doi
  {
    var k := KeyFrom(doi, url).value;
    if doi.Some? {
      assert k[..4] == "doi:" && k[4..] == doi.value;
    } else {
      assert k[0] == 'u' != "doi:"[0];
    }
  }

  /** The DOI recorded for an entry's canonical key is the entry's normalised DOI. */
  lemma CanonicalKeyDoiRoundTrip(e: Entry)
    requires CanonicalKey(e).Some?
    ensures KeyDoi(CanonicalKey(e).value) == EntryDoi(e)
  {
    KeyFromDoiRoundTrip(EntryDoi(e), EntryUrl(e));
  }

  /** guess_title: stripped title with every brace removed. */
  function GuessTitle(e: Entry): (r: string)
    ensures '{' !in r && '}' !in r
  {
    RemoveCharKeeps(RemoveChar(Strip(Field(e, "title")), '{'), '}', '{');
    RemoveChar(RemoveChar(Strip(Field(e, "title")), '{'), '}')
  }

  lemma RemoveCharKeeps(s: string, c: char, d: char)
    requires d !in s
    ensures d !in RemoveChar(s, c)
  {
    if |s| > 0 { RemoveCharKeeps(s[1..], c, d); }
  }

  // ------------------------------------------------------------------
  // Records and the index
  // ------------------------------------------------------------------

  datatype Record = Record(
    id: string,
    key: string,
    doi: Option<string>,
    year: Option<string>,
    database: Option<string>,
    title: string,
    status: string,
    pdfPath: Option<string>,
    managedFile: bool,
    source: Option<string>,
    sourceUrl: Option<string>,
    provider: Option<string>,
    contentType: Option<string>,
    sizeBytes: Option<int>,
    projectIds: seq<string>,
    stepIds: seq<string>,
    entryKeys: seq<string>,
    missingReason: Option<string>,
    failureCount: int,
    createdAt: string,
    updatedAt: string,
    lastCheckedAt: string)

  /** A value stored under a key of `records`: a record object or any other JSON value. */
  datatype Slot = Rec(record: Record) | NotADict

  predicate Distinct<T(==)>(s: seq<T>)
  {
    forall i, j :: 0 <= i < j < |s| ==> s[i] != s[j]
  }

  /** An insertion-ordered dictionary: the key order lists each key of the map exactly once. */
  ghost predicate OrderedDict(order: seq<string>, records: map<string, Slot>)
  {
    Distinct(order) && (forall k :: k in order <==> k in records)
  }

  datatype IndexDoc = IndexDoc(version: string, order: seq<string>, records: map<string, Slot>)

  /** The `records` member of the JSON file as json.load delivers it. */
  datatype RawRecords = RecordsAbsent | RecordsNotADict | RecordsDict(pairs: seq<(string, Slot)>)

  /** What reading index.json gives: no file, unparsable text, a non-object, or an object. */
  datatype RawIndex = NoFile | Unparsable | NotAnObject | IndexObject(version: Option<string>, records: RawRecords)

  /** A JSON object built from its members in order: a repeated key keeps its first position and its last value. */
  function FromPairs(pairs: seq<(string, Slot)>): (d: (seq<string>, map<string, Slot>))
    ensures OrderedDict(d.0, d.1)
    ensures forall k :: k in d.1 ==> exists i :: 0 <= i < |pairs| && pairs[i].0 == k
    decreases |pairs|
  {
    if |pairs| == 0 then ([], map[])
    else
      var prev := FromPairs(pairs[..|pairs| - 1]);
      var (k, v) := pairs[|pairs| - 1];
      if k in prev.1 then
        (prev.0, prev.1[k := v])
      else
        assert forall i :: 0 <= i < |prev.0| ==> prev.0[i] != k;
        (prev.0 + [k], prev.1[k := v])
  }

  function EmptyIndex(): IndexDoc { IndexDoc("1.0", [], map[]) }

  /**
   * load_pdf_index: never fails. A missing, unparsable or non-object file
   * gives the empty index; a non-dictionary `records` becomes empty; a
   * missing `version` becomes "1.0".
   */
  function LoadIndex(raw: RawIndex): (ix: IndexDoc)
    ensures OrderedDict(ix.order, ix.records)
    ensures !raw.IndexObject? ==> ix == EmptyIndex()
    ensures raw.IndexObject? && !raw.records.RecordsDict? ==> ix.records == map[]
    ensures raw.IndexObject? && raw.version.None? ==> ix.version == "1.0"
    ensures raw.IndexObject? && raw.version.Some? ==> ix.version == raw.version.value
    ensures raw.IndexObject? && raw.records.RecordsDict? ==>
              forall k :: k in ix.records <==> exists i :: 0 <= i < |raw.records.pairs| && raw.records.pairs[i].0 == k
  {
    match raw
    case IndexObject(version, records) =>
      var v := version.GetOr("1.0");
      if records.RecordsDict? then
        var d := FromPairs(records.pairs);
        FromPairsKeys(records.pairs);
        IndexDoc(v, d.0, d.1)
      else IndexDoc(v, [], map[])
    case _ => EmptyIndex()
  }

  lemma {:induction false} FromPairsKeys(pairs: seq<(string, Slot)>)
    ensures forall i :: 0 <= i < |pairs| ==> pairs[i].0 in FromPairs(pairs).1
    decreases |pairs|
  {
    if |pairs| > 0 {
      FromPairsKeys(pairs[..|pairs| - 1]);
      forall i | 0 <= i < |pairs| ensures pairs[i].0 in FromPairs(pairs).1 {
        if i < |pairs| - 1 { assert pairs[..|pairs| - 1][i] == pairs[i]; }
      }
    }
  }

  /** Appends a reference if it is non-empty and not yet listed. */
  function AddRef(items: seq<string>, value: string): (r: seq<string>)
    ensures items <= r && |r| <= |items| + 1
    ensures value != "" ==> value in r
    ensures Distinct(items) ==> Distinct(r)
    ensures forall x :: x in r ==> x in items || x == value
  {
    if value == "" || value in items then items else items + [value]
  }

  /** add_record_references: project, step and entry id, each appended if non-empty and absent. */
  function WithReferences(r: Record, projectId: string, stepId: string, entryKey: string): (out: Record)
    ensures r.projectIds <= out.projectIds && r.stepIds <= out.stepIds && r.entryKeys <= out.entryKeys
    ensures |out.projectIds| <= |r.projectIds| + 1 && |out.stepIds| <= |r.stepIds| + 1 && |out.entryKeys| <= |r.entryKeys| + 1
    ensures projectId != "" ==> projectId in out.projectIds
    ensures stepId != "" ==> stepId in out.stepIds
    ensures entryKey != "" ==> entryKey in out.entryKeys
    ensures References(r) ==> References(out)
    ensures out == r.(projectIds := out.projectIds, stepIds := out.stepIds, entryKeys := out.entryKeys)
  {
    r.(projectIds := AddRef(r.projectIds, projectId),
       stepIds := AddRef(r.stepIds, stepId),
       entryKeys := AddRef(r.entryKeys, entryKey))
  }

  /** The three reference lists hold no duplicates. */
  predicate References(r: Record)
  {
    Distinct(r.projectIds) && Distinct(r.stepIds) && Distinct(r.entryKeys)
  }

  /** A freshly created record for a key (status missing, never checked, no references). */
  function NewRecord(key: string, title: string, now: string, idOf: string -> string): (r: Record)
    ensures r.key == key && r.id == idOf(key) && r.title == title
    ensures r.status == "missing" && r.missingReason == Some("not_checked") && r.failureCount == 0
    ensures r.projectIds == [] && r.stepIds == [] && r.entryKeys == []
    ensures r.doi == KeyDoi(key) && r.pdfPath.None? && !r.managedFile
  {
    Record(idOf(key), key, KeyDoi(key), None, None, title, "missing", None, false,
           None, None, None, None, None, [], [], [], Some("not_checked"), 0, now, now, now)
  }

  /**
   * _ensure_record as a value: the record stored under key after the call.
   * An existing record object is kept, with an empty title filled in from
   * a non-empty title argument; anything else is replaced by a new record.
   */
  function Ensured(records: map<string, Slot>, key: string, title: string, now: string, idOf: string -> string): (r: Record)
    ensures key in records && records[key].Rec? ==>
              r == records[key].record.(title := if title != "" && records[key].record.title == "" then title else records[key].record.title)
    ensures !(key in records && records[key].Rec?) ==> r == NewRecord(key, title, now, idOf)
  {
    if key in records && records[key].Rec? then
      var old_ := records[key].record;
      if title != "" && old_.title == "" then old_.(title := title) else old_
    else NewRecord(key, title, now, idOf)
  }

  /** The record mark_record_found leaves under its key, from the ensured record. */
  function Found(base: Record, title: string, year: string, database: string, pdfPath: string, managedFile: bool,
                 source: string, sourceUrl: Option<string>, provider: Option<string>, contentType: Option<string>,
                 sizeBytes: Option<int>, projectId: string, stepId: string, entryKey: string, now: string): (r: Record)
    ensures r.status == "found" && r.missingReason.None?
    ensures r.failureCount == base.failureCount
    ensures r.title == OrElse(title, base.title)
    ensures r.year == (if year != "" then Some(year) else base.year)
    ensures r.database == (if database != "" then Some(database) else base.database)
    ensures r.pdfPath == Some(pdfPath) && r.managedFile == managedFile && r.source == Some(source)
    ensures r.key == base.key && r.id == base.id && r.doi == base.doi && r.createdAt == base.createdAt
    ensures r.updatedAt == now && r.lastCheckedAt == now
    ensures base.projectIds <= r.projectIds && base.stepIds <= r.stepIds && base.entryKeys <= r.entryKeys
    ensures References(base) ==> References(r)
  {
    var r1 := base.(status := "found", title := OrElse(title, base.title),
                    year := if year != "" then Some(year) else base.year,
                    database := if database != "" then Some(database) else base.database,
                    pdfPath := Some(pdfPath), managedFile := managedFile, source := Some(source),
                    sourceUrl := sourceUrl, provider := provider, contentType := contentType,
                    sizeBytes := sizeBytes, missingReason := None, lastCheckedAt := now, updatedAt := now);
    WithReferences(r1, projectId, stepId, entryKey)
  }

  /** The record mark_record_missing leaves under its key, from the ensured record. */
  function Missing(base: Record, title: string, year: string, database: string, reason: string,
                   projectId: string, stepId: string, entryKey: string, now: string): (r: Record)
    ensures r.status == "missing" && r.missingReason == Some(reason)
    ensures r.failureCount == base.failureCount + 1
    ensures r.title == OrElse(title, base.title)
    ensures r.year == (if year != "" then Some(year) else base.year)
    ensures r.database == (if database != "" then Some(database) else base.database)
    ensures r.pdfPath == base.pdfPath && r.managedFile == base.managedFile && r.source == base.source
    ensures r.key == base.key && r.id == base.id && r.doi == base.doi && r.createdAt == base.createdAt
    ensures r.updatedAt == now && r.lastCheckedAt == now
    ensures base.projectIds <= r.projectIds && base.stepIds <= r.stepIds && base.entryKeys <= r.entryKeys
    ensures References(base) ==> References(r)
  {
    var r1 := base.(status := "missing", title := OrElse(title, base.title),
                    year := if year != "" then Some(year) else base.year,
                    database := if database != "" then Some(database) else base.database,
                    missingReason := Some(reason), failureCount := base.failureCount + 1,
                    lastCheckedAt := now, updatedAt := now);
    WithReferences(r1, projectId, stepId, entryKey)
  }

  /** The records that are record objects, in dictionary order. */
  function DictRecords(order: seq<string>, records: map<string, Slot>): (rs: seq<Record>)
    requires forall k :: k in order ==> k in records
    ensures |rs| <= |order|
    ensures forall r :: r in rs ==> exists k :: k in order && records[k] == Rec(r)
    ensures forall k :: k in order && records[k].Rec? ==> records[k].record in rs
  {
    if |order| == 0 then []
    else
      var init := DictRecords(order[..|order| - 1], records);
      var k := order[|order| - 1];
      assert forall k' :: k' in order[..|order| - 1] ==> k' in order;
      if records[k].Rec? then init + [records[k].record] else init
  }

  /** Ordered by updated_at, newest first (Python's reverse sort on the string). */
  predicate NewestFirst(rs: seq<Record>)
  {
    forall i, j :: 0 <= i < j < |rs| ==> StrLe(rs[j].updatedAt, rs[i].updatedAt)
  }

  /** Inserts x after every record whose updated_at is not older (keeps equal keys in arrival order). */
  function InsertNewestFirst(x: Record, rs: seq<Record>): (r: seq<Record>)
    requires NewestFirst(rs)
    ensures NewestFirst(r)
    ensures multiset(r) == multiset(rs) + multiset{x}
    decreases |rs|
  {
    if |rs| == 0 then [x]
    else if StrLt(rs[0].updatedAt, x.updatedAt) then
      InsertFrontNewest(x, rs);
      [x] + rs
    else
      var tail := InsertNewestFirst(x, rs[1..]);
      assert rs == [rs[0]] + rs[1..];
      StrNotLtIsGe(rs[0].updatedAt, x.updatedAt);
      HeadNewest(rs[0], tail, rs[1..], x);
      [rs[0]] + tail
  }

  lemma InsertFrontNewest(x: Record, rs: seq<Record>)
    requires NewestFirst(rs) && |rs| > 0 && StrLt(rs[0].updatedAt, x.updatedAt)
    ensures NewestFirst([x] + rs)
  {
    var s := [x] + rs;
    forall i, j | 0 <= i < j < |s| ensures StrLe(s[j].updatedAt, s[i].updatedAt) {
      if i == 0 {
        if j > 1 {
          assert StrLe(rs[j - 1].updatedAt, rs[0].updatedAt);
          StrLeTransitive(rs[j - 1].updatedAt, rs[0].updatedAt, x.updatedAt);
        }
      } else {
        assert s[i] == rs[i - 1] && s[j] == rs[j - 1];
      }
    }
  }

  lemma HeadNewest(h: Record, tail: seq<Record>, rest: seq<Record>, x: Record)
    requires NewestFirst(tail) && NewestFirst([h] + rest)
    requires multiset(tail) == multiset(rest) + multiset{x}
    requires StrLe(x.updatedAt, h.updatedAt)
    ensures NewestFirst([h] + tail)
  {
    var s := [h] + tail;
    forall i, j | 0 <= i < j < |s| ensures StrLe(s[j].updatedAt, s[i].updatedAt) {
      if i == 0 {
        var y := tail[j - 1];
        assert y in multiset(tail);
        if y in multiset(rest) {
          var m :| 0 <= m < |rest| && rest[m] == y;
          var hr := [h] + rest;
          assert hr[m + 1] == y && hr[0] == h;
          assert StrLe(hr[m + 1].updatedAt, hr[0].updatedAt);
        } else {
          assert y == x;
        }
      } else {
        assert s[i] == tail[i - 1] && s[j] == tail[j - 1];
      }
    }
  }

  /** list.sort(key=updated_at, reverse=True), which is stable. */
  function SortNewestFirst(rs: seq<Record>): (r: seq<Record>)
    ensures NewestFirst(r)
    ensures multiset(r) == multiset(rs)
    decreases |rs|
  {
    if |rs| == 0 then []
    else
      assert rs == rs[..|rs| - 1] + [rs[|rs| - 1]];
      InsertNewestFirst(rs[|rs| - 1], SortNewestFirst(rs[..|rs| - 1]))
  }

  /** The records whose updated_at is u, in their order: the order a stable sort keeps. */
  function Stamped(rs: seq<Record>, u: string): (r: seq<Record>)
    ensures |r| <= |rs|
  {
    if |rs| == 0 then []
    else (if rs[0].updatedAt == u then [rs[0]] else []) + Stamped(rs[1..], u)
  }

  lemma {:induction false} StampedConcat(a: seq<Record>, b: seq<Record>, u: string)
    ensures Stamped(a + b, u) == Stamped(a, u) + Stamped(b, u)
    decreases |a|
  {
    if |a| > 0 {
      assert (a + b)[0] == a[0] && (a + b)[1..] == a[1..] + b;
      StampedConcat(a[1..], b, u);
    } else {
      assert a + b == b;
    }
  }

  /** In a newest-first list whose head is older than u, no record has updated_at u. */
  lemma {:induction false} StampedOlder(rs: seq<Record>, u: string)
    requires NewestFirst(rs) && |rs| > 0 && StrLt(rs[0].updatedAt, u)
    ensures Stamped(rs, u) == []
    decreases |rs|
  {
    StrLtIrreflexive(u);
    if |rs| > 1 {
      var t := rs[1..];
      assert StrLe(rs[1].updatedAt, rs[0].updatedAt);
      if rs[1].updatedAt != rs[0].updatedAt {
        StrLtTransitive(rs[1].updatedAt, rs[0].updatedAt, u);
      }
      NewestFirstTail(rs);
      assert t[0] == rs[1];
      StampedOlder(t, u);
    }
  }

  /** Inserting x puts it after every record with its updated_at: per timestamp, arrival order is kept. */
  lemma {:induction false} InsertStable(x: Record, rs: seq<Record>, u: string)
    requires NewestFirst(rs)
    ensures Stamped(InsertNewestFirst(x, rs), u) == Stamped(rs, u) + (if x.updatedAt == u then [x] else [])
    decreases |rs|
  {
    if |rs| == 0 {
      StampedCons(x, [], u);
      assert [x] + [] == [x];
    } else if StrLt(rs[0].updatedAt, x.updatedAt) {
      InsertStableFront(x, rs, u);
    } else {
      NewestFirstTail(rs);
      InsertStable(x, rs[1..], u);
      InsertStableBehind(x, rs, u);
    }
  }

  /** x newer than the head goes in front, and no record of the list shares its updated_at. */
  lemma InsertStableFront(x: Record, rs: seq<Record>, u: string)
    requires NewestFirst(rs) && |rs| > 0 && StrLt(rs[0].updatedAt, x.updatedAt)
    ensures Stamped(InsertNewestFirst(x, rs), u) == Stamped(rs, u) + (if x.updatedAt == u then [x] else [])
  {
    assert InsertNewestFirst(x, rs) == [x] + rs;
    StampedCons(x, rs, u);
    if x.updatedAt == u {
      StampedOlder(rs, u);
    }
  }

  /** x not newer than the head goes behind it, into the tail. */
  lemma InsertStableBehind(x: Record, rs: seq<Record>, u: string)
    requires NewestFirst(rs) && |rs| > 0 && !StrLt(rs[0].updatedAt, x.updatedAt)
    requires Stamped(InsertNewestFirst(x, rs[1..]), u) == Stamped(rs[1..], u) + (if x.updatedAt == u then [x] else [])
    ensures Stamped(InsertNewestFirst(x, rs), u) == Stamped(rs, u) + (if x.updatedAt == u then [x] else [])
  {
    var t := rs[1..];
    var tail := InsertNewestFirst(x, t);
    var h := if rs[0].updatedAt == u then [rs[0]] else [];
    var extra := if x.updatedAt == u then [x] else [];
    assert InsertNewestFirst(x, rs) == [rs[0]] + tail;
    StampedCons(rs[0], tail, u);
    assert Stamped(rs, u) == h + Stamped(t, u);
    Perm.ConcatAssoc(h, Stamped(t, u), extra);
  }

  lemma StampedCons(h: Record, t: seq<Record>, u: string)
    ensures Stamped([h] + t, u) == (if h.updatedAt == u then [h] else []) + Stamped(t, u)
  {
    assert ([h] + t)[0] == h && ([h] + t)[1..] == t;
  }

  lemma NewestFirstTail(rs: seq<Record>)
    requires NewestFirst(rs) && |rs| > 0
    ensures NewestFirst(rs[1..])
  {
    var t := rs[1..];
    forall i, j | 0 <= i < j < |t| ensures StrLe(t[j].updatedAt, t[i].updatedAt) {
      assert t[i] == rs[i + 1] && t[j] == rs[j + 1];
    }
  }

  /** list.sort is stable: the records sharing an updated_at keep their input order. */
  lemma {:induction false} SortStable(rs: seq<Record>, u: string)
    ensures Stamped(SortNewestFirst(rs), u) == Stamped(rs, u)
    decreases |rs|
  {
    if |rs| > 0 {
      var n := |rs| - 1;
      var pre, x := rs[..n], rs[n];
      var sorted := SortNewestFirst(pre);
      assert SortNewestFirst(rs) == InsertNewestFirst(x, sorted);
      SortStable(pre, u);
      InsertStable(x, sorted, u);
      StampedSnoc(rs, u);
    }
  }

  lemma StampedSnoc(rs: seq<Record>, u: string)
    requires |rs| > 0
    ensures Stamped(rs, u) == Stamped(rs[..|rs| - 1], u) + (if rs[|rs| - 1].updatedAt == u then [rs[|rs| - 1]] else [])
  {
    var n := |rs| - 1;
    assert rs == rs[..n] + [rs[n]];
    StampedConcat(rs[..n], [rs[n]], u);
    assert [rs[n]][1..] == [];
  }

  /** The key k holds a record object whose id is record_id. */
  predicate IdMatch(records: map<string, Slot>, k: string, recordId: string)
  {
    k in records && records[k].Rec? && records[k].record.id == recordId
  }

  /** Position i of order is the first whose key holds a record with id record_id. */
  predicate FirstMatchAt(order: seq<string>, records: map<string, Slot>, recordId: string, i: int)
  {
    0 <= i < |order| && IdMatch(records, order[i], recordId) &&
    forall j :: 0 <= j < i ==> !IdMatch(records, order[j], recordId)
  }

  /** The first record object, in dictionary order, whose id is record_id, with its key. */
  function FindById(order: seq<string>, records: map<string, Slot>, recordId: string): (r: Option<(string, Record)>)
    requires forall k :: k in order ==> k in records
    ensures r.Some? ==> r.value.0 in order && IdMatch(records, r.value.0, recordId)
    ensures r.Some? ==> records[r.value.0] == Rec(r.value.1)
    ensures r.Some? ==> exists i :: FirstMatchAt(order, records, recordId, i) && order[i] == r.value.0
    ensures r.None? <==> forall k :: k in order ==> !IdMatch(records, k, recordId)
    decreases |order|
  {
    if |order| == 0 then None
    else if IdMatch(records, order[0], recordId) then
      Some((order[0], records[order[0]].record))
    else
      var rest := FindById(order[1..], records, recordId);
      assert forall k :: k in order ==> k == order[0] || k in order[1..];
      if rest.Some? then
        assert exists i :: FirstMatchAt(order, records, recordId, i) && order[i] == rest.value.0 by {
          var i' :| FirstMatchAt(order[1..], records, recordId, i') && order[1..][i'] == rest.value.0;
          assert order[i' + 1] == rest.value.0;
          forall j | 0 <= j < i' + 1 ensures !IdMatch(records, order[j], recordId) {
            if j > 0 { assert order[j] == order[1..][j - 1]; }
          }
          assert FirstMatchAt(order, records, recordId, i' + 1);
        }
        Some(rest.value)
      else None
  }

  /** What delete_record reports. */
  datatype Deleted = Deleted(recordId: string, removedFile: bool, removedPath: Option<string>)

  /** The shared PDF index held in memory between load and save. */
  class PdfIndex {
    var version: string
    var order: seq<string>
    var records: map<string, Slot>
    /** key_to_record_id: the first 16 hex digits of SHA-256 of the key (opaque here). */
    const idOf: string -> string

    ghost predicate Valid()
      reads this
    {
      OrderedDict(order, records)
    }

    /** Loads the index from what reading index.json produced. */
    constructor Load(raw: RawIndex, hash: string -> string)
      ensures Valid()
      ensures IndexDoc(version, order, records) == LoadIndex(raw)
      ensures idOf == hash
    {
      var ix := LoadIndex(raw);
      version := ix.version;
      order := ix.order;
      records := ix.records;
      idOf := hash;
    }

    /** list_pdf_records: the record objects, newest updated_at first. */
    function ListRecords(): (rs: seq<Record>)
      reads this
      requires Valid()
      ensures NewestFirst(rs)
      ensures multiset(rs) == multiset(DictRecords(order, records))
    {
      SortNewestFirst(DictRecords(order, records))
    }

    /** get_record_by_id: scans the dictionary in order and stops at the first match. */
    method GetRecordById(recordId: string) returns (hit: Option<(string, Record)>)
      requires Valid()
      ensures hit == FindById(order, records, recordId)
    {
      var i := 0;
      while i < |order|
        invariant 0 <= i <= |order|
        invariant FindById(order, records, recordId) == FindById(order[i..], records, recordId)
      {
        var key := order[i];
        if records[key].Rec? && records[key].record.id == recordId {
          return Some((key, records[key].record));
        }
        assert order[i..][1..] == order[i + 1..];
        i := i + 1;
      }
      return None;
    }

    /** _ensure_record: get-or-create under key; a new key is appended to the dictionary order. */
    method EnsureRecord(key: string, title: string, now: string) returns (rec: Record)
      requires Valid()
      modifies this
      ensures Valid()
      ensures rec == Ensured(old(records), key, title, now, idOf)
      ensures records == old(records)[key := Rec(rec)]
      ensures order == if key in old(records) then old(order) else old(order) + [key]
      ensures version == old(version)
    {
      rec := Ensured(records, key, title, now, idOf);
      if key !in records {
        order := order + [key];
      }
      records := records[key := Rec(rec)];
    }

    /** mark_record_found. */
    method MarkFound(key: string, title: string, year: string, database: string, pdfPath: string, managedFile: bool,
                     source: string, sourceUrl: Option<string>, provider: Option<string>, contentType: Option<string>,
                     sizeBytes: Option<int>, projectId: string, stepId: string, entryKey: string, now: string)
      returns (rec: Record)
      requires Valid()
      modifies this
      ensures Valid()
      ensures rec == Found(Ensured(old(records), key, title, now, idOf), title, year, database, pdfPath, managedFile,
                           source, sourceUrl, provider, contentType, sizeBytes, projectId, stepId, entryKey, now)
      ensures records == old(records)[key := Rec(rec)]
      ensures order == if key in old(records) then old(order) else old(order) + [key]
      ensures version == old(version)
    {
      var base := EnsureRecord(key, title, now);
      rec := Found(base, title, year, database, pdfPath, managedFile, source, sourceUrl, provider, contentType,
                   sizeBytes, projectId, stepId, entryKey, now);
      records := records[key := Rec(rec)];
    }

    /** mark_record_missing. */
    method MarkMissing(key: string, title: string, year: string, database: string, reason: string,
                       projectId: string, stepId: string, entryKey: string, now: string)
      returns (rec: Record)
      requires Valid()
      modifies this
      ensures Valid()
      ensures rec == Missing(Ensured(old(records), key, title, now, idOf), title, year, database, reason,
                             projectId, stepId, entryKey, now)
      ensures records == old(records)[key := Rec(rec)]
      ensures order == if key in old(records) then old(order) else old(order) + [key]
      ensures version == old(version)
    {
      var base := EnsureRecord(key, title, now);
      rec := Missing(base, title, year, database, reason, projectId, stepId, entryKey, now);
      records := records[key := Rec(rec)];
    }

    /**
     * delete_record: KeyError for an unknown id; otherwise removes that key
     * only, and removes the file only for a managed record with a path that
     * exists (given as the set of existing paths).
     */
    method DeleteRecord(recordId: string, deleteFile: bool, existing: set<string>) returns (r: Result<Deleted, string>)
      requires Valid()
      modifies this
      ensures Valid()
      ensures version == old(version)
      ensures FindById(old(order), old(records), recordId).None? ==>
                r == Err(recordId) && records == old(records) && order == old(order)
      ensures FindById(old(order), old(records), recordId).Some? ==>
                var (key, rec) := FindById(old(order), old(records), recordId).value;
                && records == old(records) - {key}
                && order == RemoveKey(old(order), key)
                && r.Ok? && r.value.recordId == recordId
                && r.value.removedFile == (deleteFile && rec.pdfPath.Some? && rec.pdfPath.value != ""
                                           && rec.managedFile && rec.pdfPath.value in existing)
                && r.value.removedPath == (if r.value.removedFile then rec.pdfPath else None)
    {
      var hit := GetRecordById(recordId);
      if hit.None? {
        return Err(recordId);
      }
      var (key, rec) := hit.value;
      var removed := deleteFile && rec.pdfPath.Some? && rec.pdfPath.value != "" && rec.managedFile
                     && rec.pdfPath.value in existing;
      RemoveKeyOrdered(order, records, key);
      records := records - {key};
      order := RemoveKey(order, key);
      return Ok(Deleted(recordId, removed, if removed then rec.pdfPath else None));
    }
  }

  function RemoveKey(order: seq<string>, key: string): (r: seq<string>)
    ensures forall k :: k in r <==> k in order && k != key
    ensures |r| <= |order|
  {
    if |order| == 0 then []
    else if order[0] == key then RemoveKey(order[1..], key)
    else [order[0]] + RemoveKey(order[1..], key)
  }

  lemma RemoveKeyOrdered(order: seq<string>, records: map<string, Slot>, key: string)
    requires OrderedDict(order, records)
    ensures OrderedDict(RemoveKey(order, key), records - {key})
  {
    RemoveKeyDistinct(order, key);
  }

  lemma {:induction false} RemoveKeyDistinct(order: seq<string>, key: string)
    requires Distinct(order)
    ensures Distinct(RemoveKey(order, key))
    decreases |order|
  {
    if |order| > 0 {
      RemoveKeyDistinct(order[1..], key);
      assert forall i :: 1 <= i < |order| ==> order[i] == order[1..][i - 1];
      assert order[0] !in order[1..];
    }
  }

  /**
   * Every mark keeps the reference lists duplicate-free and never drops an
   * earlier reference; a missing outcome adds exactly one failure and a
   * found outcome none.
   */
  lemma MarkOutcomes(records: map<string, Slot>, key: string, title: string, now: string, idOf: string -> string,
                     reason: string, pdfPath: string, projectId: string, stepId: string, entryKey: string)
    requires key in records && records[key].Rec? && References(records[key].record)
    ensures var base := Ensured(records, key, title, now, idOf);
            var m := Missing(base, title, "", "", reason, projectId, stepId, entryKey, now);
            var f := Found(base, title, "", "", pdfPath, true, "download", None, None, None, None, projectId, stepId, entryKey, now);
            && References(m) && References(f)
            && m.failureCount == records[key].record.failureCount + 1
            && f.failureCount == records[key].record.failureCount
            && records[key].record.projectIds <= m.projectIds
            && records[key].record.projectIds <= f.projectIds
  {
  }

  /** A record created for a DOI key carries that DOI; a URL key's record has none. */
  lemma NewRecordDoi(e: Entry, title: string, now: string, idOf: string -> string)
    requires CanonicalKey(e).Some?
    ensures NewRecord(CanonicalKey(e).value, title, now, idOf).doi == EntryDoi(e)
  {
    CanonicalKeyDoiRoundTrip(e);
  }
}
