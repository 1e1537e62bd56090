/**
 * String primitives with the meaning of the Python built-ins the repository
 * uses (str.strip, str.split, str.join, `in`, str.replace, str.lower),
 * restricted to ASCII case mapping and ASCII whitespace.
 */
module Text {
  import opened Wrappers

  /**
   * The ASCII characters for which Python's str.isspace() holds: what the
   * argument-less strip() and split() and the pattern `\s` treat as
   * whitespace, the four information separators 0x1C-0x1F included.
   */
  const Whitespace: set<char> := {' ', '\t', '\n', '\r', '\U{000B}', '\U{000C}', '\U{001C}', '\U{001D}', '\U{001E}', '\U{001F}'}

  predicate IsSpace(c: char) { c in Whitespace }

  predicate IsDigit(c: char) { '0' <= c <= '9' }

  predicate IsLowerAlpha(c: char) { 'a' <= c <= 'z' }

  predicate IsUpperAlpha(c: char) { 'A' <= c <= 'Z' }

  predicate IsAlpha(c: char) { IsLowerAlpha(c) || IsUpperAlpha(c) }

  predicate IsAlnum(c: char) { IsAlpha(c) || IsDigit(c) }

  /** Characters matched by the regular-expression class `\w` (ASCII part). */
  predicate IsWordChar(c: char) { IsAlnum(c) || c == '_' }

  function Lower(c: char): (r: char)
    ensures IsUpperAlpha(c) ==> IsLowerAlpha(r)
    ensures !IsUpperAlpha(c) ==> r == c
  {
    if IsUpperAlpha(c) then (c as int + 32) as char else c
  }

  function Upper(c: char): (r: char)
    ensures IsLowerAlpha(c) ==> IsUpperAlpha(r)
    ensures !IsLowerAlpha(c) ==> r == c
  {
    if IsLowerAlpha(c) then (c as int - 32) as char else c
  }

  function LowerStr(s: string): (r: string)
    ensures |r| == |s|
    ensures forall i :: 0 <= i < |s| ==> r[i] == Lower(s[i])
  {
    if |s| == 0 then [] else [Lower(s[0])] + LowerStr(s[1..])
  }

  function UpperStr(s: string): (r: string)
    ensures |r| == |s|
    ensures forall i :: 0 <= i < |s| ==> r[i] == Upper(s[i])
  {
    if |s| == 0 then [] else [Upper(s[0])] + UpperStr(s[1..])
  }

  predicate NoUpper(s: string) { forall i :: 0 <= i < |s| ==> !IsUpperAlpha(s[i]) }

  lemma LowerStrNoUpper(s: string)
    ensures NoUpper(LowerStr(s))
  {
  }

  lemma LowerStrNoUpperId(s: string)
    requires NoUpper(s)
    ensures LowerStr(s) == s
  {
  }

  lemma LowerStrIdempotent(s: string)
    ensures LowerStr(LowerStr(s)) == LowerStr(s)
  {
  }

  lemma LowerStrConcat(a: string, b: string)
    ensures LowerStr(a + b) == LowerStr(a) + LowerStr(b)
  {
  }

  predicate StartsWith(s: string, prefix: string) { prefix <= s }

  predicate EndsWith(s: string, suffix: string)
  {
    |suffix| <= |s| && s[|s| - |suffix|..] == suffix
  }

  /** Python `needle in hay`. */
  predicate Contains(hay: string, needle: string)
  {
    exists i :: 0 <= i <= |hay| && needle <= hay[i..]
  }

  predicate ContainsChar(s: string, c: char) { c in s }

  /** Some needle of the list occurs in hay. */
  function ContainsAny(hay: string, needles: seq<string>): (b: bool)
    ensures b <==> exists k :: 0 <= k < |needles| && Contains(hay, needles[k])
  {
    if |needles| == 0 then false
    else if Contains(hay, needles[0]) then true
    else
      var b := ContainsAny(hay, needles[1..]);
      assert forall k :: 1 <= k < |needles| ==> needles[k] == needles[1..][k - 1];
      b
  }

  /** s starts with the lower-case text p when s is read with ASCII letters lower-cased. */
  predicate StartsWithIgnoreCase(s: string, p: string): (b: bool)
    ensures b ==> |p| <= |s|
    decreases |s|
  {
    |p| == 0 || (|s| > 0 && Lower(s[0]) == p[0] && StartsWithIgnoreCase(s[1..], p[1..]))
  }

  lemma {:induction false} StartsWithIgnoreCaseLower(s: string, p: string)
    ensures StartsWithIgnoreCase(s, p) <==> StartsWith(LowerStr(s), p)
    decreases |p|
  {
    if |p| > 0 && |s| > 0 {
      StartsWithIgnoreCaseLower(s[1..], p[1..]);
      assert LowerStr(s)[1..] == LowerStr(s[1..]);
    }
  }

  lemma {:induction false} StartsWithIgnoreCaseOwn(p: string, s: string)
    requires NoUpper(p)
    ensures StartsWithIgnoreCase(p + s, p)
    decreases |p|
  {
    if |p| > 0 {
      assert (p + s)[1..] == p[1..] + s;
      StartsWithIgnoreCaseOwn(p[1..], s);
    }
  }

  /** Two lower-case prefixes of the same text: the shorter is a prefix of the longer. */
  lemma {:induction false} StartsWithIgnoreCaseBoth(s: string, p: string, q: string)
    requires StartsWithIgnoreCase(s, p) && StartsWithIgnoreCase(s, q) && |p| <= |q|
    ensures p <= q
    decreases |p|
  {
    if |p| > 0 {
      StartsWithIgnoreCaseBoth(s[1..], p[1..], q[1..]);
    }
  }

  /** Text that agrees with p up to a position where p and q differ does not start with q. */
  lemma {:induction false} StartsWithIgnoreCaseMismatch(s: string, p: string, q: string, i: nat)
    requires StartsWithIgnoreCase(s, p) && i < |p| && i < |q| && p[i] != q[i]
    ensures !StartsWithIgnoreCase(s, q)
    decreases i
  {
    if i > 0 {
      StartsWithIgnoreCaseMismatch(s[1..], p[1..], q[1..], i - 1);
    }
  }

  /** s.strip(chars): leading characters in cs removed. */
  function StripStart(s: string, cs: set<char>): (r: string)
    ensures |r| <= |s|
    decreases |s|
  {
    if |s| > 0 && s[0] in cs then StripStart(s[1..], cs) else s
  }

  /** StripStart removes exactly the leading run of characters in cs. */
  lemma {:induction false} StripStartFacts(s: string, cs: set<char>)
    ensures StripStart(s, cs) == s[|s| - |StripStart(s, cs)|..]
    ensures |StripStart(s, cs)| > 0 ==> StripStart(s, cs)[0] !in cs
    ensures forall i :: 0 <= i < |s| - |StripStart(s, cs)| ==> s[i] in cs
    decreases |s|
  {
    if |s| > 0 && s[0] in cs {
      StripStartFacts(s[1..], cs);
      assert s[1..][|s| - 1 - |StripStart(s, cs)|..] == s[|s| - |StripStart(s, cs)|..];
      assert forall i :: 1 <= i < |s| - |StripStart(s, cs)| ==> s[i] == s[1..][i - 1];
    }
  }

  lemma StripStartNone(s: string, cs: set<char>)
    requires |s| > 0 ==> s[0] !in cs
    ensures StripStart(s, cs) == s
  {
  }

  lemma StripEndNone(s: string, cs: set<char>)
    requires |s| > 0 ==> s[|s| - 1] !in cs
    ensures StripEnd(s, cs) == s
  {
  }

  /** No white-space character is a letter. */
  lemma WhitespaceNotAlpha()
    ensures forall c :: c in Whitespace ==> !IsAlpha(c)
  {
  }

  /** Upper-casing and stripping a set of non-letters commute. */
  lemma {:induction false} StripStartUpper(s: string, cs: set<char>)
    requires forall c :: c in cs ==> !IsAlpha(c)
    ensures StripStart(UpperStr(s), cs) == UpperStr(StripStart(s, cs))
    decreases |s|
  {
    if |s| > 0 {
      assert UpperStr(s)[1..] == UpperStr(s[1..]);
      if s[0] in cs {
        StripStartUpper(s[1..], cs);
      } else {
        assert UpperStr(s)[0] !in cs;
      }
    }
  }

  lemma {:induction false} StripEndUpper(s: string, cs: set<char>)
    requires forall c :: c in cs ==> !IsAlpha(c)
    ensures StripEnd(UpperStr(s), cs) == UpperStr(StripEnd(s, cs))
    decreases |s|
  {
    if |s| > 0 {
      var u := UpperStr(s);
      assert u[..|u| - 1] == UpperStr(s[..|s| - 1]);
      if s[|s| - 1] in cs {
        StripEndUpper(s[..|s| - 1], cs);
      } else {
        assert u[|u| - 1] !in cs;
      }
    }
  }

  function StripEnd(s: string, cs: set<char>): (r: string)
    ensures |r| <= |s|
    decreases |s|
  {
    if |s| > 0 && s[|s| - 1] in cs then StripEnd(s[..|s| - 1], cs) else s
  }

  /** StripEnd removes exactly the trailing run of characters in cs. */
  lemma {:induction false} StripEndFacts(s: string, cs: set<char>)
    ensures StripEnd(s, cs) == s[..|StripEnd(s, cs)|]
    ensures |StripEnd(s, cs)| > 0 ==> StripEnd(s, cs)[|StripEnd(s, cs)| - 1] !in cs
    ensures forall i :: |StripEnd(s, cs)| <= i < |s| ==> s[i] in cs
    decreases |s|
  {
    if |s| > 0 && s[|s| - 1] in cs {
      StripEndFacts(s[..|s| - 1], cs);
      assert s[..|s| - 1][..|StripEnd(s, cs)|] == s[..|StripEnd(s, cs)|];
    }
  }

  /** Python s.strip(chars). */
  function StripSet(s: string, cs: set<char>): (r: string)
    ensures |r| <= |s|
    ensures |r| > 0 ==> r[0] !in cs && r[|r| - 1] !in cs
    ensures (forall i :: 0 <= i < |s| ==> s[i] !in cs) ==> r == s
    ensures forall c :: c in r ==> c in s
  {
    var t := StripStart(s, cs);
    var r := StripEnd(t, cs);
    StripStartFacts(s, cs);
    StripEndFacts(t, cs);
    forall c | c in r ensures c in s {
      var i :| 0 <= i < |r| && r[i] == c;
      assert t[i] == c;
      assert s[|s| - |t| + i] == c;
    }
    r
  }

  /** Python s.strip(). */
  function Strip(s: string): (r: string)
    ensures |r| <= |s|
    ensures |r| > 0 ==> !IsSpace(r[0]) && !IsSpace(r[|r| - 1])
    ensures forall c :: c in r ==> c in s
  {
    StripSet(s, Whitespace)
  }

  lemma StripIsStartThenEnd(s: string)
    ensures Strip(s) == StripEnd(StripStart(s, Whitespace), Whitespace)
  {
  }

  /** Every character of s satisfies the allowed-set test. */
  predicate AllIn(s: string, cs: set<char>) { forall i :: 0 <= i < |s| ==> s[i] in cs }

  /** Python s.replace(c, d) for single characters. */
  function ReplaceChar(s: string, c: char, d: char): (r: string)
    ensures |r| == |s|
    ensures forall i :: 0 <= i < |s| ==> r[i] == (if s[i] == c then d else s[i])
  {
    if |s| == 0 then [] else [if s[0] == c then d else s[0]] + ReplaceChar(s[1..], c, d)
  }

  /** Python s.replace(c, "") for a single character. */
  function RemoveChar(s: string, c: char): (r: string)
    ensures c !in r
    ensures |r| <= |s|
    ensures c !in s ==> r == s
  {
    if |s| == 0 then ""
    else if s[0] == c then RemoveChar(s[1..], c)
    else [s[0]] + RemoveChar(s[1..], c)
  }

  /** Python s.replace(old, new) with a non-empty pattern: leftmost, non-overlapping. */
  function Replace(s: string, pat: string, rep: string): string
    requires |pat| > 0
    decreases |s|
  {
    if |s| < |pat| then s
    else if s[..|pat|] == pat then rep + Replace(s[|pat|..], pat, rep)
    else [s[0]] + Replace(s[1..], pat, rep)
  }

  /** A pattern whose first character does not occur in s is never replaced. */
  lemma {:induction false} ReplaceAbsent(s: string, pat: string, rep: string)
    requires |pat| > 0 && pat[0] !in s
    ensures Replace(s, pat, rep) == s
    decreases |s|
  {
    if |s| >= |pat| {
      assert s[..|pat|][0] == s[0];
      ReplaceAbsent(s[1..], pat, rep);
      assert [s[0]] + s[1..] == s;
    }
  }

  /** First index of c in s, if any. */
  function IndexOf(s: string, c: char): (r: Option<nat>)
    ensures r.None? <==> c !in s
    ensures r.Some? ==> r.value < |s| && s[r.value] == c && c !in s[..r.value]
  {
    if |s| == 0 then None
    else if s[0] == c then Some(0)
    else
      var t := IndexOf(s[1..], c);
      assert s[1..][..] == s[1..];
      if t.None? then None
      else
        assert s[..t.value + 1] == [s[0]] + s[1..][..t.value];
        Some(t.value + 1)
  }

  /** The first occurrence is at k when s[k] is c and no c comes before it. */
  lemma {:induction false} IndexOfAt(s: string, c: char, k: nat)
    requires k < |s| && s[k] == c && c !in s[..k]
    ensures IndexOf(s, c) == Some(k)
    decreases k
  {
    if k > 0 {
      assert s[0] == s[..k][0];
      assert s[1..][..k - 1] == s[1..k];
      assert s[1..k] == s[..k][1..];
      IndexOfAt(s[1..], c, k - 1);
    }
  }

  /** Index of the first character of s that is in cs, or |s|. */
  function FirstOf(s: string, cs: set<char>): (n: nat)
    ensures n <= |s|
    ensures forall i :: 0 <= i < n ==> s[i] !in cs
    ensures n < |s| ==> s[n] in cs
  {
    if |s| == 0 || s[0] in cs then 0 else 1 + FirstOf(s[1..], cs)
  }

  /** Python s.split(c, 1)[0]: the text before the first c. */
  function Before(s: string, c: char): (r: string)
    ensures c !in r
    ensures r <= s
    ensures c !in s ==> r == s
  {
    match IndexOf(s, c)
    case None => s
    case Some(i) => s[..i]
  }

  /** The text after the first c, or "" if there is none. */
  function After(s: string, c: char): (r: string)
    ensures c in s ==> s == Before(s, c) + [c] + r
    ensures c !in s ==> r == ""
  {
    match IndexOf(s, c)
    case None => ""
    case Some(i) => s[i + 1..]
  }

  /** Python s.split(sep) for a single-character separator. */
  function Split(s: string, sep: char): (r: seq<string>)
    ensures |r| >= 1
    ensures forall i :: 0 <= i < |r| ==> sep !in r[i]
    decreases |s|
  {
    match IndexOf(s, sep)
    case None => [s]
    case Some(i) => [s[..i]] + Split(s[i + 1..], sep)
  }

  /** Python sep.join(parts). */
  function Join(parts: seq<string>, sep: string): string
  {
    if |parts| == 0 then ""
    else if |parts| == 1 then parts[0]
    else parts[0] + sep + Join(parts[1..], sep)
  }

  /** Length of the leading run of non-whitespace characters. */
  function WordLen(s: string): (n: nat)
    ensures n <= |s|
    ensures forall i :: 0 <= i < n ==> !IsSpace(s[i])
    ensures n < |s| ==> IsSpace(s[n])
  {
    if |s| == 0 || IsSpace(s[0]) then 0 else 1 + WordLen(s[1..])
  }

  predicate IsWord(w: string) { |w| > 0 && forall i :: 0 <= i < |w| ==> !IsSpace(w[i]) }

  /** Python s.split(): the maximal runs of non-whitespace characters. */
  function Words(s: string): (r: seq<string>)
    ensures forall i :: 0 <= i < |r| ==> IsWord(r[i])
    decreases |s|
  {
    var t := StripStart(s, Whitespace);
    StripStartFacts(s, Whitespace);
    if |t| == 0 then []
    else
      var n := WordLen(t);
      var w := t[..n];
      assert IsWord(w) by {
        assert !IsSpace(t[0]);
        forall i | 0 <= i < |w| ensures !IsSpace(w[i]) { assert w[i] == t[i]; }
      }
      var rest := Words(t[n..]);
      assert forall i :: 1 <= i < |rest| + 1 ==> ([w] + rest)[i] == rest[i - 1];
      [w] + rest
  }

  /** The shape produced by " ".join(s.split()): words separated by single spaces. */
  predicate Collapsed(s: string)
  {
    && (|s| > 0 ==> !IsSpace(s[0]) && !IsSpace(s[|s| - 1]))
    && (forall i :: 0 <= i < |s| ==> IsSpace(s[i]) ==> s[i] == ' ')
    && (forall i :: 0 <= i < |s| - 1 ==> !(s[i] == ' ' && s[i + 1] == ' '))
  }

  lemma {:induction false} JoinWordsCollapsed(ws: seq<string>)
    requires forall i :: 0 <= i < |ws| ==> IsWord(ws[i])
    ensures Collapsed(Join(ws, " "))
    ensures |ws| > 0 ==> |Join(ws, " ")| > 0
    decreases |ws|
  {
    if |ws| == 1 {
      assert IsWord(ws[0]);
    } else if |ws| > 1 {
      assert IsWord(ws[0]);
      JoinWordsCollapsed(ws[1..]);
      CollapsedJoin(ws[0], Join(ws[1..], " "));
    }
  }

  lemma CollapsedJoin(a: string, b: string)
    requires IsWord(a) && Collapsed(b) && |b| > 0
    ensures Collapsed(a + " " + b)
  {
    var s := a + " " + b;
    forall i | 0 <= i < |s| - 1
      ensures !(s[i] == ' ' && s[i + 1] == ' ')
    {
      if i >= |a| + 1 {
        assert s[i] == b[i - |a| - 1] && s[i + 1] == b[i - |a|];
      } else if i == |a| {
        assert s[i + 1] == b[0];
      } else if i + 1 < |a| {
        assert s[i] == a[i];
      }
    }
    forall i | 0 <= i < |s|
      ensures IsSpace(s[i]) ==> s[i] == ' '
    {
      if i > |a| {
        assert s[i] == b[i - |a| - 1];
      } else if i < |a| {
        assert s[i] == a[i];
      }
    }
    assert s[|s| - 1] == b[|b| - 1];
  }

  /** A character absent from s is absent from every word of s. */
  lemma {:induction false} WordsAvoid(s: string, c: char)
    requires c !in s
    ensures forall i :: 0 <= i < |Words(s)| ==> c !in Words(s)[i]
    decreases |s|
  {
    var t := StripStart(s, Whitespace);
    StripStartFacts(s, Whitespace);
    if |t| > 0 {
      var n := WordLen(t);
      assert c !in t[..n] && c !in t[n..];
      WordsAvoid(t[n..], c);
    }
  }

  /** A character absent from the parts and the separator is absent from the joined string. */
  lemma {:induction false} JoinAvoid(parts: seq<string>, sep: string, c: char)
    requires c !in sep
    requires forall i :: 0 <= i < |parts| ==> c !in parts[i]
    ensures c !in Join(parts, sep)
    decreases |parts|
  {
    if |parts| > 1 {
      JoinAvoid(parts[1..], sep, c);
    }
  }

  /** Collapsing whitespace brings in no character but the space. */
  lemma CollapseSpacesAvoid(s: string, c: char)
    requires c !in s && c != ' '
    ensures c !in CollapseSpaces(s)
  {
    WordsAvoid(s, c);
    JoinAvoid(Words(s), " ", c);
  }

  /** Python " ".join(s.split()). */
  function CollapseSpaces(s: string): (r: string)
    ensures Collapsed(r)
  {
    JoinWordsCollapsed(Words(s));
    Join(Words(s), " ")
  }

  /** Words only looks past leading whitespace. */
  lemma WordsStripStart(s: string)
    ensures Words(s) == Words(StripStart(s, Whitespace))
  {
    StripStartFacts(s, Whitespace);
    StripStartNone(StripStart(s, Whitespace), Whitespace);
  }

  /** A suffix of a collapsed string that starts on a non-space is collapsed. */
  lemma CollapsedSuffix(s: string, k: nat)
    requires Collapsed(s) && k < |s| && !IsSpace(s[k])
    ensures Collapsed(s[k..])
  {
    var t := s[k..];
    forall i | 0 <= i < |t| ensures IsSpace(t[i]) ==> t[i] == ' ' { assert t[i] == s[k + i]; }
    forall i | 0 <= i < |t| - 1 ensures !(t[i] == ' ' && t[i + 1] == ' ') {
      assert t[i] == s[k + i] && t[i + 1] == s[k + i + 1];
    }
  }

  /** One leading space does not change the words. */
  lemma WordsSkipSpace(s: string)
    requires |s| > 1 && IsSpace(s[0]) && !IsSpace(s[1])
    ensures Words(s) == Words(s[1..])
  {
    assert StripStart(s, Whitespace) == StripStart(s[1..], Whitespace);
    StripStartNone(s[1..], Whitespace);
    WordsStripStart(s);
  }

  /** In a collapsed string a word ends with exactly one space and another word. */
  lemma SpaceAfterWord(s: string, n: nat)
    requires Collapsed(s) && n == WordLen(s) && n < |s|
    ensures n + 1 < |s| && s[n] == ' ' && !IsSpace(s[n + 1])
  {
  }

  lemma SplitAround(s: string, n: nat)
    requires n < |s|
    ensures s == s[..n] + [s[n]] + s[n + 1..]
    ensures s[n..][1..] == s[n + 1..]
  {
  }

  lemma WordsNonEmpty(t: string)
    requires |t| > 0 && !IsSpace(t[0])
    ensures |Words(t)| > 0
  {
    StripStartNone(t, Whitespace);
  }

  lemma JoinCons(w: string, ws: seq<string>, sep: string)
    requires |ws| > 0
    ensures Join([w] + ws, sep) == w + sep + Join(ws, sep)
  {
    assert ([w] + ws)[1..] == ws;
  }

  /** " ".join(s.split()) leaves an already collapsed string unchanged. */
  lemma {:induction false} CollapsedFixed(s: string)
    requires Collapsed(s)
    ensures CollapseSpaces(s) == s
    decreases |s|
  {
    if |s| > 0 {
      StripStartNone(s, Whitespace);
      var n := WordLen(s);
      assert Words(s) == [s[..n]] + Words(s[n..]);
      if n < |s| {
        SpaceAfterWord(s, n);
        var t := s[n + 1..];
        CollapsedSuffix(s, n + 1);
        SplitAround(s, n);
        WordsSkipSpace(s[n..]);
        CollapsedFixed(t);
        WordsNonEmpty(t);
        JoinCons(s[..n], Words(t), " ");
      } else {
        assert s[n..] == "";
      }
    }
  }

  /** Upper-casing commutes with deleting a non-letter. */
  lemma {:induction false} RemoveCharUpper(s: string, c: char)
    requires !IsAlpha(c)
    ensures RemoveChar(UpperStr(s), c) == UpperStr(RemoveChar(s, c))
    decreases |s|
  {
    if |s| > 0 {
      assert UpperStr(s) == [Upper(s[0])] + UpperStr(s[1..]);
      assert UpperStr(s)[1..] == UpperStr(s[1..]);
      RemoveCharUpper(s[1..], c);
      if s[0] != c {
        assert UpperStr([s[0]] + RemoveChar(s[1..], c)) == [Upper(s[0])] + UpperStr(RemoveChar(s[1..], c));
      }
    }
  }

  /** Lower-casing forgets an earlier upper-casing. */
  lemma LowerStrUpperStr(s: string)
    ensures LowerStr(UpperStr(s)) == LowerStr(s)
  {
  }

  /** needle cannot occur where one of its characters never appears. */
  lemma NotContainsChar(hay: string, needle: string, k: nat)
    requires k < |needle| && needle[k] !in hay
    ensures !Contains(hay, needle)
  {
  }

  /** An occurrence of needle at i starts with needle's first two characters. */
  lemma PrefixChars(hay: string, needle: string, i: nat)
    requires |needle| >= 2 && i <= |hay| && needle <= hay[i..]
    ensures i + 1 < |hay| && hay[i] == needle[0] && hay[i + 1] == needle[1]
  {
    assert hay[i..][0] == hay[i] && hay[i..][1] == hay[i + 1];
  }

  lemma ContainsSelf(s: string)
    ensures Contains(s, s)
  {
    assert s <= s[0..];
  }

  /** Decimal rendering of a natural number, as Python str(n). */
  function NatToString(n: nat): (r: string)
    ensures |r| > 0
    ensures forall i :: 0 <= i < |r| ==> IsDigit(r[i])
    decreases n
  {
    if n < 10 then [DigitChar(n)] else NatToString(n / 10) + [DigitChar(n % 10)]
  }

  function DigitChar(d: nat): (c: char)
    requires d < 10
    ensures IsDigit(c)
  {
    ('0' as int + d) as char
  }

  function DigitValue(c: char): (d: nat)
    requires IsDigit(c)
    ensures d < 10
  {
    c as int - '0' as int
  }

  predicate AllDigits(s: string) { forall i :: 0 <= i < |s| ==> IsDigit(s[i]) }

  /** The value of a non-empty run of decimal digits. */
  function DigitsValue(s: string): nat
    requires AllDigits(s)
    decreases |s|
  {
    if |s| == 0 then 0 else DigitsValue(s[..|s| - 1]) * 10 + DigitValue(s[|s| - 1])
  }

  /** Digits with single underscores between them, as Python's int() accepts ("2_024"). */
  predicate DigitGroups(s: string)
  {
    && |s| > 0 && IsDigit(s[0]) && IsDigit(s[|s| - 1])
    && (forall i :: 0 <= i < |s| ==> IsDigit(s[i]) || s[i] == '_')
    && (forall i :: 0 <= i < |s| - 1 ==> !(s[i] == '_' && s[i + 1] == '_'))
  }

  lemma RemoveCharDigits(s: string)
    requires forall i :: 0 <= i < |s| ==> IsDigit(s[i]) || s[i] == '_'
    ensures AllDigits(RemoveChar(s, '_'))
  {
    var r := RemoveChar(s, '_');
    forall i | 0 <= i < |r| ensures IsDigit(r[i]) {
      RemoveCharKeeps(s, '_', r[i]);
    }
  }

  /** RemoveChar brings in no new character. */
  lemma {:induction false} RemoveCharKeeps(s: string, c: char, d: char)
    requires d in RemoveChar(s, c)
    ensures d in s
    decreases |s|
  {
    if |s| > 0 && d !in [s[0]] {
      if s[0] == c {
        RemoveCharKeeps(s[1..], c, d);
      } else {
        assert RemoveChar(s, c) == [s[0]] + RemoveChar(s[1..], c);
        RemoveCharKeeps(s[1..], c, d);
      }
    }
  }

  /** The value of a run of digit groups. */
  function GroupsValue(s: string): nat
    requires DigitGroups(s)
  {
    RemoveCharDigits(s);
    DigitsValue(RemoveChar(s, '_'))
  }

  /**
   * Python int(text) on an already stripped text: an optional sign, then
   * ASCII digits, possibly grouped by single underscores. None where
   * Python raises ValueError.
   */
  function ParseInt(s: string): (r: Option<int>)
    ensures r.Some? ==> |s| > 0
  {
    if |s| > 0 && (s[0] == '-' || s[0] == '+') then
      var body := s[1..];
      if DigitGroups(body) then
        Some(if s[0] == '-' then -(GroupsValue(body) as int) else GroupsValue(body) as int)
      else None
    else if DigitGroups(s) then Some(GroupsValue(s) as int)
    else None
  }

  lemma {:induction false} DigitsValueOfNat(n: nat)
    ensures AllDigits(NatToString(n)) && DigitsValue(NatToString(n)) == n
    decreases n
  {
    if n >= 10 {
      DigitsValueOfNat(n / 10);
      var s := NatToString(n);
      assert s[..|s| - 1] == NatToString(n / 10);
    }
  }

  /** int(str(n)) == n */
  lemma ParseIntOfNat(n: nat)
    ensures ParseInt(NatToString(n)) == Some(n)
  {
    var s := NatToString(n);
    DigitsValueOfNat(n);
    assert '_' !in s by {
      forall i | 0 <= i < |s| ensures s[i] != '_' { assert IsDigit(s[i]); }
    }
    assert DigitGroups(s);
    assert RemoveChar(s, '_') == s;
  }

  /** Strict lexicographic order on strings, as Python's `<` on str. */
  predicate StrLt(a: string, b: string)
    decreases |a|
  {
    if |a| == 0 then |b| > 0
    else if |b| == 0 then false
    else if a[0] != b[0] then a[0] < b[0]
    else StrLt(a[1..], b[1..])
  }

  lemma {:induction false} StrLtIrreflexive(a: string)
    ensures !StrLt(a, a)
    decreases |a|
  {
    if |a| > 0 { StrLtIrreflexive(a[1..]); }
  }

  lemma {:induction false} StrLtTransitive(a: string, b: string, c: string)
    requires StrLt(a, b) && StrLt(b, c)
    ensures StrLt(a, c)
    decreases |a|
  {
    if |a| > 0 && |b| > 0 && |c| > 0 && a[0] == b[0] && b[0] == c[0] {
      StrLtTransitive(a[1..], b[1..], c[1..]);
    }
  }

  lemma {:induction false} StrLtTotal(a: string, b: string)
    ensures StrLt(a, b) || StrLt(b, a) || a == b
    decreases |a|
  {
    if |a| > 0 && |b| > 0 && a[0] == b[0] {
      StrLtTotal(a[1..], b[1..]);
      if a[1..] == b[1..] {
        assert a == [a[0]] + a[1..] && b == [b[0]] + b[1..];
      }
    }
  }

  /** Python's `<=` on str. */
  predicate StrLe(a: string, b: string) { StrLt(a, b) || a == b }

  lemma StrLeTransitive(a: string, b: string, c: string)
    requires StrLe(a, b) && StrLe(b, c)
    ensures StrLe(a, c)
  {
    if StrLt(a, b) && StrLt(b, c) { StrLtTransitive(a, b, c); }
  }

  lemma StrNotLtIsGe(a: string, b: string)
    ensures !StrLt(a, b) <==> StrLe(b, a)
  {
    StrLtTotal(a, b);
    if StrLt(a, b) && StrLe(b, a) {
      if StrLt(b, a) { StrLtTransitive(a, b, a); StrLtIrreflexive(a); } else { StrLtIrreflexive(a); }
    }
  }
}
