/**
 * Author-name helpers shared by the author deduplication steps of both
 * applications: the token normaliser, the author-list splitter
 * `re.split(r"\s+and\s+|;", field)`, and the Jaccard similarity of two
 * last-name sets.
 */
module AuthorNames {
  import opened Text

  // ------------------------------------------------------------------
  // normalize_author_token
  // ------------------------------------------------------------------

  /** The characters the class `[a-z0-9]` matches. */
  predicate IsNameChar(c: char) { IsLowerAlpha(c) || IsDigit(c) }

  /** Made of `a-z` and `0-9` only. */
  predicate NameText(s: string) { forall i :: 0 <= i < |s| ==> IsNameChar(s[i]) }

  /** re.sub(r"[^a-z0-9]+", "", s): drop every character outside `[a-z0-9]`. */
  function KeepNameChars(s: string): (r: string)
    ensures NameText(r) && |r| <= |s|
    ensures NameText(s) ==> r == s
  {
    if |s| == 0 then "" else (if IsNameChar(s[0]) then [s[0]] else []) + KeepNameChars(s[1..])
  }

  lemma {:induction false} KeepNameCharsConcat(a: string, b: string)
    ensures KeepNameChars(a + b) == KeepNameChars(a) + KeepNameChars(b)
  {
    if |a| > 0 {
      assert (a + b)[1..] == a[1..] + b;
      KeepNameCharsConcat(a[1..], b);
    } else {
      assert a + b == b;
    }
  }

  /** Python normalize_author_token. */
  function NormalizeAuthorToken(token: string): (r: string)
    ensures NameText(r) && |r| <= |token|
  {
    KeepNameChars(LowerStr(token))
  }

  /** Lower-case letters and digits pass unchanged, so normalising twice is normalising once. */
  lemma NormalizeAuthorTokenIdempotent(token: string)
    ensures NormalizeAuthorToken(NormalizeAuthorToken(token)) == NormalizeAuthorToken(token)
  {
    var r := NormalizeAuthorToken(token);
    LowerStrNoUpperId(r);
  }

  /** Case does not matter: "SMITH" and "smith" normalise alike. */
  lemma NormalizeAuthorTokenIgnoresCase(token: string)
    ensures NormalizeAuthorToken(UpperStr(token)) == NormalizeAuthorToken(token)
  {
    LowerStrUpperStr(token);
  }

  /** Punctuation anywhere is dropped: the normal form of a concatenation is the concatenation of normal forms. */
  lemma NormalizeAuthorTokenConcat(a: string, b: string)
    ensures NormalizeAuthorToken(a + b) == NormalizeAuthorToken(a) + NormalizeAuthorToken(b)
  {
    LowerStrConcat(a, b);
    KeepNameCharsConcat(LowerStr(a), LowerStr(b));
  }

  // ------------------------------------------------------------------
  // re.split(r"\s+and\s+|;", field)
  // ------------------------------------------------------------------

  /** The length of the run of whitespace starting at i. */
  function SpaceRun(s: string, i: nat): (n: nat)
    requires i <= |s|
    ensures i + n <= |s|
    ensures i + n < |s| ==> !IsSpace(s[i + n])
    decreases |s| - i
  {
    if i == |s| || !IsSpace(s[i]) then 0 else 1 + SpaceRun(s, i + 1)
  }

  /**
   * The length of a match of `\s+and\s+` at i, or 0. Both runs are greedy and
   * backtracking cannot help: the character after a whitespace run is not
   * whitespace.
   */
  function AndMatch(s: string, i: nat): (n: nat)
    requires i <= |s|
    ensures i + n <= |s|
  {
    var w := SpaceRun(s, i);
    if w == 0 || i + w + 3 > |s| || s[i + w..i + w + 3] != "and" then 0
    else
      var w2 := SpaceRun(s, i + w + 3);
      if w2 == 0 then 0 else w + 3 + w2
  }

  /** The length of a separator match at i (`\s+and\s+` tried first, then `;`), or 0. */
  function SepAt(s: string, i: nat): (n: nat)
    requires i < |s|
    ensures i + n <= |s|
  {
    if s[i] == ';' then 1 else AndMatch(s, i)
  }

  /** The separator match lengths at every position of s. */
  function SepTable(s: string): (t: seq<nat>)
    ensures |t| == |s|
    ensures forall i :: 0 <= i < |s| ==> t[i] == SepAt(s, i)
  {
    seq(|s|, i requires 0 <= i < |s| => SepAt(s, i))
  }

  /** A table of match lengths, none reaching past the end. */
  predicate Fits(s: string, seps: seq<nat>)
  {
    |seps| == |s| && forall i :: 0 <= i < |s| ==> i + seps[i] <= |s|
  }

  /** The pieces of s from the piece starting at `start`, scanning the match table from i. */
  function Pieces(s: string, seps: seq<nat>, start: nat, i: nat): (r: seq<string>)
    requires Fits(s, seps) && start <= i <= |s|
    ensures |r| >= 1
    decreases |s| - i
  {
    if i == |s| then [s[start..]]
    else if seps[i] > 0 then [s[start..i]] + Pieces(s, seps, i + seps[i], i + seps[i])
    else Pieces(s, seps, start, i + 1)
  }

  /** Python re.split(r"\s+and\s+|;", s). */
  function SplitAuthors(s: string): (r: seq<string>)
    ensures |r| >= 1
  {
    Pieces(s, SepTable(s), 0, 0)
  }

  lemma {:induction false} PiecesNoSeparator(s: string, seps: seq<nat>, start: nat, i: nat)
    requires Fits(s, seps) && start <= i <= |s| && forall k :: i <= k < |s| ==> seps[k] == 0
    ensures Pieces(s, seps, start, i) == [s[start..]]
    decreases |s| - i
  {
    if i < |s| {
      PiecesNoSeparator(s, seps, start, i + 1);
    }
  }

  /** No separator matches anywhere in s. */
  predicate NoSeparator(s: string) { forall i :: 0 <= i < |s| ==> SepAt(s, i) == 0 }

  /** A field without `;` and without a whitespace-delimited `and` is one piece. */
  lemma SplitAuthorsSingle(s: string)
    requires NoSeparator(s)
    ensures SplitAuthors(s) == [s]
  {
    PiecesNoSeparator(s, SepTable(s), 0, 0);
  }

  /** A piece never holds a position where a separator starts. */
  lemma {:induction false} PiecesAvoidSeparators(s: string, seps: seq<nat>, start: nat, i: nat, c: char)
    requires Fits(s, seps) && start <= i <= |s|
    requires forall k :: 0 <= k < |s| && s[k] == c ==> seps[k] > 0
    requires forall k :: start <= k < i ==> s[k] != c
    ensures forall p :: 0 <= p < |Pieces(s, seps, start, i)| ==> c !in Pieces(s, seps, start, i)[p]
    decreases |s| - i
  {
    if i < |s| {
      if seps[i] > 0 {
        PiecesAvoidSeparators(s, seps, i + seps[i], i + seps[i], c);
      } else {
        PiecesAvoidSeparators(s, seps, start, i + 1, c);
      }
    }
  }

  /** A piece never contains a semicolon. */
  lemma SplitAuthorsAvoidSemicolon(s: string)
    ensures forall p :: 0 <= p < |SplitAuthors(s)| ==> ';' !in SplitAuthors(s)[p]
  {
    PiecesAvoidSeparators(s, SepTable(s), 0, 0, ';');
  }

  /** Scanning from offset d of s is scanning the suffix s[d..]. */
  lemma {:induction false} PiecesShift(s: string, seps: seq<nat>, d: nat, start: nat, i: nat)
    requires Fits(s, seps) && d <= |s| && start <= i <= |s| - d
    ensures Fits(s[d..], seps[d..])
    ensures Pieces(s, seps, d + start, d + i) == Pieces(s[d..], seps[d..], start, i)
    decreases |s| - d - i
  {
    var q, t := s[d..], seps[d..];
    assert forall k :: 0 <= k < |q| ==> q[k] == s[d + k] && t[k] == seps[d + k];
    if i < |q| {
      if t[i] > 0 {
        assert s[d + start..d + i] == q[start..i];
        PiecesShift(s, seps, d, i + t[i], i + t[i]);
      } else {
        PiecesShift(s, seps, d, start, i + 1);
      }
    } else {
      assert s[d + start..] == q[start..];
    }
  }

  /**
   * A one-character separator at n that no earlier match reaches over cuts
   * the scan: the pieces before n, then the pieces after it.
   */
  lemma {:induction false} PiecesCut(s: string, seps: seq<nat>, n: nat, start: nat, i: nat)
    requires Fits(s, seps) && start <= i <= n < |s| && seps[n] == 1
    requires forall k :: 0 <= k < n ==> k + seps[k] <= n
    ensures Fits(s[..n], seps[..n])
    ensures Pieces(s, seps, start, i) == Pieces(s[..n], seps[..n], start, i) + Pieces(s, seps, n + 1, n + 1)
    decreases n - i
  {
    var p, t := s[..n], seps[..n];
    if i < n {
      assert t[i] == seps[i];
      if seps[i] > 0 {
        assert p[start..i] == s[start..i];
        PiecesCut(s, seps, n, i + seps[i], i + seps[i]);
      } else {
        PiecesCut(s, seps, n, start, i + 1);
      }
    } else {
      assert p[start..] == s[start..n];
    }
  }

  /** The pieces of a, then those of b, when a semicolon joins them. */
  lemma PiecesJoined(a: string, b: string, ta: seq<nat>, tb: seq<nat>)
    requires Fits(a, ta) && Fits(b, tb)
    ensures Fits(a + ";" + b, ta + [1] + tb)
    ensures Pieces(a + ";" + b, ta + [1] + tb, 0, 0) == Pieces(a, ta, 0, 0) + Pieces(b, tb, 0, 0)
  {
    var s, t := a + ";" + b, ta + [1] + tb;
    assert s[..|a|] == a && t[..|a|] == ta;
    assert s[|a| + 1..] == b && t[|a| + 1..] == tb;
    assert forall k :: 0 <= k < |a| ==> t[k] == ta[k];
    assert forall k :: 0 <= k < |b| ==> t[|a| + 1 + k] == tb[k];
    assert Fits(s, t);
    PiecesCut(s, t, |a|, 0, 0);
    PiecesShift(s, t, |a| + 1, 0, 0);
  }

  /** Whitespace runs look only forward: prefixing text does not change them. */
  lemma {:induction false} SpaceRunShift(p: string, q: string, i: nat)
    requires i <= |q|
    ensures SpaceRun(p + q, |p| + i) == SpaceRun(q, i)
    decreases |q| - i
  {
    if i < |q| {
      assert (p + q)[|p| + i] == q[i];
      SpaceRunShift(p, q, i + 1);
    }
  }

  lemma SepShift(p: string, q: string, i: nat)
    requires i < |q|
    ensures SepAt(p + q, |p| + i) == SepAt(q, i)
  {
    var s := p + q;
    assert s[|p| + i] == q[i];
    SpaceRunShift(p, q, i);
    var w := SpaceRun(q, i);
    if w > 0 && i + w + 3 <= |q| {
      assert s[|p| + i + w..|p| + i + w + 3] == q[i + w..i + w + 3];
      SpaceRunShift(p, q, i + w + 3);
    }
  }

  /** Whitespace runs inside a stop at a following non-whitespace character. */
  lemma {:induction false} SpaceRunPrefix(a: string, t: string, i: nat)
    requires i <= |a| && |t| > 0 && !IsSpace(t[0])
    ensures SpaceRun(a + t, i) == SpaceRun(a, i)
    decreases |a| - i
  {
    if i < |a| {
      assert (a + t)[i] == a[i];
      SpaceRunPrefix(a, t, i + 1);
    } else {
      assert (a + t)[i] == t[0];
    }
  }

  /** A separator inside a is the same separator when a semicolon and more text follow. */
  lemma SepBeforeSemicolon(a: string, b: string, i: nat)
    requires i < |a|
    ensures SepAt(a + ";" + b, i) == SepAt(a, i)
  {
    var t := ";" + b;
    var s := a + t;
    assert s == a + ";" + b;
    assert s[i] == a[i];
    SpaceRunPrefix(a, t, i);
    var w := SpaceRun(a, i);
    if w > 0 && i + w + 3 <= |s| {
      if i + w + 3 <= |a| {
        assert s[i + w..i + w + 3] == a[i + w..i + w + 3];
        SpaceRunPrefix(a, t, i + w + 3);
      } else {
        assert s[|a|] == ';';
        assert s[i + w..i + w + 3][|a| - (i + w)] == ';';
      }
    }
  }

  /** The separator table of "a;b" is a's, the semicolon's, then b's. */
  lemma SepTableSemicolon(a: string, b: string)
    ensures SepTable(a + ";" + b) == SepTable(a) + [1] + SepTable(b)
  {
    var s := a + ";" + b;
    var whole := SepTable(s);
    var parts := SepTable(a) + [1] + SepTable(b);
    assert |whole| == |parts|;
    forall j | 0 <= j < |s| ensures whole[j] == parts[j]
    {
      if j < |a| {
        SepBeforeSemicolon(a, b, j);
      } else if j == |a| {
        assert s[j] == ';';
      } else {
        var i := j - |a| - 1;
        assert s == (a + ";") + b;
        SepShift(a + ";", b, i);
        assert parts[j] == SepTable(b)[i];
      }
    }
  }

  /** Splitting "a;b" gives the pieces of a followed by the pieces of b. */
  lemma SplitAuthorsSemicolon(a: string, b: string)
    ensures SplitAuthors(a + ";" + b) == SplitAuthors(a) + SplitAuthors(b)
  {
    SepTableSemicolon(a, b);
    PiecesJoined(a, b, SepTable(a), SepTable(b));
  }

  // ------------------------------------------------------------------
  // author_similarity
  // ------------------------------------------------------------------

  /** Python author_similarity: the Jaccard ratio, 0 when either set is empty. */
  function AuthorSimilarity(a: set<string>, b: set<string>): (r: real)
  {
    if |a| == 0 || |b| == 0 then 0.0
    else (|a * b| as real) / (|a + b| as real)
  }

  lemma {:induction false} SubsetCard<T>(x: set<T>, y: set<T>)
    requires x <= y
    ensures |x| <= |y|
    ensures |x| == |y| ==> x == y
    decreases |x|
  {
    if x != {} {
      var e :| e in x;
      SubsetCard(x - {e}, y - {e});
      assert |x - {e}| == |x| - 1 && |y - {e}| == |y| - 1;
      if |x| == |y| {
        assert x == (x - {e}) + {e} && y == (y - {e}) + {e};
      }
    } else if |y| == 0 {
      assert y == {};
    }
  }

  lemma AuthorSimilaritySymmetric(a: set<string>, b: set<string>)
    ensures AuthorSimilarity(a, b) == AuthorSimilarity(b, a)
  {
    assert a * b == b * a && a + b == b + a;
  }

  lemma AuthorSimilarityBounds(a: set<string>, b: set<string>)
    ensures 0.0 <= AuthorSimilarity(a, b) <= 1.0
  {
    if |a| > 0 && |b| > 0 {
      SubsetCard(a * b, a + b);
      SubsetCard(a, a + b);
      RatioBounds(|a * b| as real, |a + b| as real);
    }
  }

  lemma RatioBounds(n: real, d: real)
    requires 0.0 <= n <= d && d > 0.0
    ensures 0.0 <= n / d <= 1.0
  {
    assert n / d * d == n;
  }

  lemma RatioIsOne(n: real, d: real)
    requires d > 0.0
    ensures n / d == 1.0 <==> n == d
  {
    assert n / d * d == n;
  }

  /** The similarity is 1 exactly for identical non-empty sets. */
  lemma AuthorSimilarityOne(a: set<string>, b: set<string>)
    ensures AuthorSimilarity(a, b) == 1.0 <==> a == b && |a| > 0
  {
    if |a| > 0 && |b| > 0 {
      SubsetCard(a * b, a + b);
      SubsetCard(a, a + b);
      RatioIsOne(|a * b| as real, |a + b| as real);
      if AuthorSimilarity(a, b) == 1.0 {
        assert |a * b| == |a + b|;
        SubsetCard(a * b, a);
        SubsetCard(b, a + b);
        SubsetCard(a * b, b);
      }
      if a == b {
        assert a * b == a && a + b == a;
      }
    }
  }

  /** Sets with no common name have similarity 0. */
  lemma AuthorSimilarityDisjoint(a: set<string>, b: set<string>)
    requires a * b == {}
    ensures AuthorSimilarity(a, b) == 0.0
  {
  }
}
