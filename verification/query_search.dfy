/**
 * The local boolean query language over titles and abstracts
 * (app/backend/query_search.py): the tokenizer, the recursive-descent
 * parser (OR below AND, explicit or implicit, below NOT, plus field scopes),
 * the evaluator and the term matcher.
 *
 * The parser is given twice: as functions over a token sequence and a
 * position (the specification), and as the class QueryParser whose methods
 * move a `pos` cursor inside while loops, each proved equal to its function.
 */
module QuerySearch {
  import opened Wrappers
  import opened Text

  /**
   * clean_bib_text: braces become spaces, HTML entities are decoded by
   * `unescape`, and whitespace runs collapse to single spaces; an empty
   * value gives "".
   */
  function CleanBibText(value: string, unescape: string -> string): (r: string)
    ensures Collapsed(r)
    ensures value == "" ==> r == ""
  {
    if value == "" then ""
    else
      var noBraces := ReplaceChar(ReplaceChar(value, '{', ' '), '}', ' ');
      CollapseSpaces(Strip(unescape(noBraces)))
  }

  /** Without entity decoding, no brace survives clean_bib_text. */
  lemma CleanBibTextNoBraces(value: string)
    ensures '{' !in CleanBibText(value, s => s)
    ensures '}' !in CleanBibText(value, s => s)
  {
    if value != "" {
      var noBraces := ReplaceChar(ReplaceChar(value, '{', ' '), '}', ' ');
      assert '{' !in noBraces && '}' !in noBraces;
      CollapseSpacesAvoid(Strip(noBraces), '{');
      CollapseSpacesAvoid(Strip(noBraces), '}');
    }
  }

  // ---------------------------------------------------------------------
  // Tokenizer
  // ---------------------------------------------------------------------

  predicate IsParen(c: char) { c == '(' || c == ')' }

  /**
   * End of a double-quoted token whose body starts at s[i..], in the order the
   * regular expression "(?:\\.|[^"])*" tries its choices: an escape pair (a
   * backslash and any character but a newline) first, then one non-quote
   * character, and only then the closing quote.
   */
  function QuotedEnd(s: string, i: nat): (r: Option<nat>)
    requires i <= |s|
    ensures r.Some? ==> i < r.value <= |s| && s[r.value - 1] == '"'
    decreases |s| - i
  {
    var viaEscape := if i + 1 < |s| && s[i] == '\\' && s[i + 1] != '\n' then QuotedEnd(s, i + 2) else None;
    if viaEscape.Some? then viaEscape
    else
      var viaChar := if i < |s| && s[i] != '"' then QuotedEnd(s, i + 1) else None;
      if viaChar.Some? then viaChar
      else if i < |s| && s[i] == '"' then Some(i + 1)
      else None
  }

  /** Length of the leading run of characters that are neither whitespace nor parentheses. */
  function BareLen(s: string): (n: nat)
    ensures n <= |s|
    ensures forall k :: 0 <= k < n ==> !IsSpace(s[k]) && !IsParen(s[k])
    ensures n < |s| ==> IsSpace(s[n]) || IsParen(s[n])
  {
    if |s| == 0 || IsSpace(s[0]) || IsParen(s[0]) then 0 else 1 + BareLen(s[1..])
  }

  /** The upper-case keyword kw starts s, in any case, followed by a non-word character or the end. */
  predicate KeywordAt(s: string, kw: string)
  {
    |kw| <= |s| && UpperStr(s[..|kw|]) == kw && (|kw| == |s| || !IsWordChar(s[|kw|]))
  }

  /**
   * Length of the token the token pattern matches at the start of s: a quoted
   * string, a parenthesis, the keywords AND, OR, NOT, or a bare word. The word
   * boundary before a keyword always holds where a token starts (after
   * whitespace, a parenthesis, a closing quote, a keyword or a maximal bare word).
   */
  function TokenLen(s: string): (n: nat)
    requires |s| > 0 && !IsSpace(s[0])
    ensures 0 < n <= |s|
  {
    if s[0] == '"' && QuotedEnd(s, 1).Some? then QuotedEnd(s, 1).value
    else if IsParen(s[0]) then 1
    else if KeywordAt(s, "AND") then 3
    else if KeywordAt(s, "OR") then 2
    else if KeywordAt(s, "NOT") then 3
    else BareLen(s)
  }

  /** The forms a token takes. */
  predicate TokenShape(t: string)
  {
    || t == "(" || t == ")"
    || (|t| >= 2 && t[0] == '"' && t[|t| - 1] == '"')
    || UpperStr(t) == "AND" || UpperStr(t) == "OR" || UpperStr(t) == "NOT"
    || (|t| > 0 && forall k :: 0 <= k < |t| ==> !IsSpace(t[k]) && !IsParen(t[k]))
  }

  /** All matches of the token pattern in s, left to right. */
  function Scan(s: string): (r: seq<string>)
    ensures forall k :: 0 <= k < |r| ==> |r[k]| > 0 && !IsSpace(r[k][0]) && TokenShape(r[k])
    decreases |s|
  {
    if |s| == 0 then []
    else if IsSpace(s[0]) then Scan(s[1..])
    else
      var n := TokenLen(s);
      var t := s[..n];
      assert TokenShape(t) by {
        if s[0] == '"' && QuotedEnd(s, 1).Some? {
          assert t[|t| - 1] == s[n - 1];
        } else if IsParen(s[0]) {
          assert t == [s[0]];
        } else if KeywordAt(s, "AND") || KeywordAt(s, "OR") || KeywordAt(s, "NOT") {
        } else {
          assert forall k :: 0 <= k < |t| ==> t[k] == s[k];
        }
      }
      var rest := Scan(s[n..]);
      assert forall k :: 1 <= k < 1 + |rest| ==> ([t] + rest)[k] == rest[k - 1];
      [t] + rest
  }

  /** The tokens that are not blank once stripped. */
  function NonBlank(ts: seq<string>): (r: seq<string>)
    ensures forall k :: 0 <= k < |r| ==> Strip(r[k]) != "" && r[k] in ts
  {
    if |ts| == 0 then []
    else
      var rest := NonBlank(ts[1..]);
      assert forall k :: 0 <= k < |rest| ==> rest[k] in ts;
      if Strip(ts[0]) != "" then [ts[0]] + rest else rest
  }

  /** tokenize: the non-blank matches of the token pattern. */
  function Tokenize(query: string): (r: seq<string>)
    ensures r == Scan(query)
    ensures forall k :: 0 <= k < |r| ==> |r[k]| > 0 && TokenShape(r[k]) && Strip(r[k]) != ""
  {
    var ts := Scan(query);
    forall k | 0 <= k < |ts| ensures Strip(ts[k]) != "" { NotBlank(ts[k]); }
    NonBlankKeeps(ts);
    NonBlank(ts)
  }

  lemma NotBlank(t: string)
    requires |t| > 0 && !IsSpace(t[0])
    ensures Strip(t) != ""
  {
    StripStartNone(t, Whitespace);
    StripIsStartThenEnd(t);
    StripEndFacts(t, Whitespace);
  }

  /** The blank filter of tokenize never drops a token of the scan. */
  lemma {:induction false} NonBlankKeeps(ts: seq<string>)
    requires forall k :: 0 <= k < |ts| ==> Strip(ts[k]) != ""
    ensures NonBlank(ts) == ts
  {
    if |ts| > 0 {
      NonBlankKeeps(ts[1..]);
      assert [ts[0]] + ts[1..] == ts;
    }
  }

  /**
   * A word the tokenizer returns unchanged when words are separated by spaces:
   * no whitespace, no parenthesis, no opening quote and no keyword at its start.
   */
  predicate Plain(w: string)
  {
    && |w| > 0 && w[0] != '"'
    && (forall k :: 0 <= k < |w| ==> !IsSpace(w[k]) && !IsParen(w[k]))
    && !KeywordAt(w, "AND") && !KeywordAt(w, "OR") && !KeywordAt(w, "NOT")
  }

  lemma {:induction false} BareLenPrefix(w: string, t: string)
    requires forall k :: 0 <= k < |w| ==> !IsSpace(w[k]) && !IsParen(w[k])
    requires |t| > 0 ==> IsSpace(t[0])
    ensures BareLen(w + t) == |w|
    decreases |w|
  {
    if |w| > 0 {
      assert (w + t)[1..] == w[1..] + t;
      BareLenPrefix(w[1..], t);
    } else {
      assert w + t == t;
    }
  }

  lemma KeywordAtExtend(w: string, t: string, kw: string)
    requires |w| > 0 && |t| > 0 && IsSpace(t[0])
    requires forall k :: 0 <= k < |kw| ==> IsUpperAlpha(kw[k])
    ensures KeywordAt(w + t, kw) == KeywordAt(w, kw)
  {
    var s := w + t;
    if |w| < |kw| && |kw| <= |s| {
      assert UpperStr(s[..|kw|])[|w|] == Upper(t[0]);
      assert !IsUpperAlpha(Upper(t[0]));
    } else if |w| >= |kw| {
      assert s[..|kw|] == w[..|kw|];
      if |w| > |kw| {
        assert s[|kw|] == w[|kw|];
      } else {
        assert s[|kw|] == t[0];
      }
    }
  }

  /** Plain words joined by single spaces tokenize back into the same words. */
  lemma {:induction false} TokenizePlainWords(ws: seq<string>)
    requires forall k :: 0 <= k < |ws| ==> Plain(ws[k])
    ensures Tokenize(Join(ws, " ")) == ws
  {
    ScanPlainWords(ws);
  }

  lemma {:induction false} ScanPlainWords(ws: seq<string>)
    requires forall k :: 0 <= k < |ws| ==> Plain(ws[k])
    ensures Scan(Join(ws, " ")) == ws
  {
    if |ws| == 1 {
      ScanPlainWord(ws[0]);
    } else if |ws| > 1 {
      ScanPlainWordThenSpace(ws[0], Join(ws[1..], " "));
      ScanPlainWords(ws[1..]);
      assert [ws[0]] + ws[1..] == ws;
    }
  }

  lemma ScanPlainWord(w: string)
    requires Plain(w)
    ensures Scan(w) == [w]
  {
    assert w + "" == w;
    BareLenPrefix(w, "");
    assert TokenLen(w) == |w|;
    assert w[..|w|] == w;
  }

  lemma ScanPlainWordThenSpace(w: string, rest: string)
    requires Plain(w)
    ensures Scan(w + " " + rest) == [w] + Scan(rest)
  {
    var t := " " + rest;
    var s := w + t;
    assert w + " " + rest == s;
    KeywordAtExtend(w, t, "AND");
    KeywordAtExtend(w, t, "OR");
    KeywordAtExtend(w, t, "NOT");
    BareLenPrefix(w, t);
    assert TokenLen(s) == |w|;
    assert s[..|w|] == w;
    assert s[|w|..] == t;
    assert t[1..] == rest;
  }

  // ---------------------------------------------------------------------
  // Fields, quotes and the syntax tree
  // ---------------------------------------------------------------------

  /** The fields a query may name. */
  const Fields: set<string> := {"title", "abstract", "any"}

  /** Lower-cases ASCII letters and turns spaces into underscores, character by character. */
  function KeyChars(s: string): string
  {
    if |s| == 0 then "" else [if s[0] == ' ' then '_' else Lower(s[0])] + KeyChars(s[1..])
  }

  /** KeyChars is str.lower() followed by str.replace(" ", "_"). */
  lemma {:induction false} KeyCharsIsLowerThenReplace(s: string)
    ensures KeyChars(s) == ReplaceChar(LowerStr(s), ' ', '_')
  {
    if |s| > 0 {
      KeyCharsIsLowerThenReplace(s[1..]);
      assert ReplaceChar(LowerStr(s), ' ', '_')[1..] == ReplaceChar(LowerStr(s[1..]), ' ', '_');
    }
  }

  const Quote: set<char> := {'"'}

  /** The lookup key of a field name: stripped, quotes stripped, lower-cased, spaces as underscores. */
  function FieldKey(field: string): string
  {
    KeyChars(StripEnd(StripStart(StripEnd(StripStart(field, Whitespace), Whitespace), Quote), Quote))
  }

  /** FieldKey is field.strip().strip('"').lower().replace(" ", "_"). */
  lemma FieldKeyIsStripLowerReplace(field: string)
    ensures FieldKey(field) == ReplaceChar(LowerStr(StripSet(Strip(field), {'"'})), ' ', '_')
  {
    StripIsStartThenEnd(field);
    KeyCharsIsLowerThenReplace(StripSet(Strip(field), {'"'}));
  }

  /** _normalize_field: the field a name denotes, if it is one of title, abstract, any. */
  function NormalizeField(field: string): (r: Option<string>)
    ensures r.Some? ==> r.value in Fields
    ensures r.Some? <==> FieldKey(field) in Fields
    ensures r.Some? ==> r.value == FieldKey(field)
  {
    if FieldKey(field) in Fields then Some(FieldKey(field)) else None
  }

  lemma {:induction false} KeyCharsUpper(s: string)
    ensures KeyChars(UpperStr(s)) == KeyChars(s)
  {
    if |s| > 0 {
      assert UpperStr(s)[1..] == UpperStr(s[1..]);
      KeyCharsUpper(s[1..]);
    }
  }

  /** Field names are case-insensitive: "TITLE" names the same field as "title". */
  lemma NormalizeFieldIgnoresCase(field: string)
    ensures NormalizeField(UpperStr(field)) == NormalizeField(field)
  {
    var s1 := StripStart(field, Whitespace);
    var s2 := StripEnd(s1, Whitespace);
    var s3 := StripStart(s2, Quote);
    WhitespaceNotAlpha();
    StripStartUpper(field, Whitespace);
    StripEndUpper(s1, Whitespace);
    StripStartUpper(s2, Quote);
    StripEndUpper(s3, Quote);
    KeyCharsUpper(StripEnd(s3, Quote));
  }

  lemma {:induction false} KeyCharsLowerWord(s: string)
    requires forall i :: 0 <= i < |s| ==> IsLowerAlpha(s[i])
    ensures KeyChars(s) == s
  {
    if |s| > 0 {
      KeyCharsLowerWord(s[1..]);
    }
  }

  /** A lower-case name is its own key. */
  lemma FieldKeyOfLowerWord(s: string)
    requires |s| > 0 && forall i :: 0 <= i < |s| ==> IsLowerAlpha(s[i])
    ensures FieldKey(s) == s
  {
    StripStartNone(s, Whitespace);
    StripEndNone(s, Whitespace);
    StripStartNone(s, Quote);
    StripEndNone(s, Quote);
    KeyCharsLowerWord(s);
  }

  /** Each of title, abstract and any names itself. */
  lemma FieldNamesNormalize(f: string)
    requires f in Fields
    ensures NormalizeField(f) == Some(f)
  {
    FieldKeyOfLowerWord(f);
  }

  /** _is_field_token: a token "name:" whose name is a known field. */
  predicate IsFieldToken(token: string)
  {
    EndsWith(token, ":") && NormalizeField(token[..|token| - 1]).Some?
  }

  /** _strip_quotes: stripped, one pair of enclosing quotes removed, \" unescaped, stripped again. */
  function StripQuotes(value: string): (r: string)
    ensures |r| > 0 ==> !IsSpace(r[0]) && !IsSpace(r[|r| - 1])
  {
    var token := Strip(value);
    var inner := if |token| >= 2 && token[0] == '"' && token[|token| - 1] == '"' then token[1..|token| - 1] else token;
    Strip(Replace(inner, "\\\"", "\""))
  }

  datatype Node =
    | Term(field: Option<string>, value: string)
    | And(left: Node, right: Node)
    | Or(left: Node, right: Node)
    | Not(node: Node)
    | Scoped(scope: string, node: Node)

  /** A successful parse: the tree and the position of the first token after it. */
  datatype Parsed = Parsed(node: Node, next: nat)

  /** A parse outcome, or the message of the QuerySyntaxError raised. */
  type Outcome = Result<Parsed, string>

  const EndOfQuery := "Unexpected end of query."

  function TokenAt(toks: seq<string>, pos: nat): (r: Option<string>)
    ensures r.Some? <==> pos < |toks|
    ensures r.Some? ==> r.value == toks[pos]
  {
    if pos < |toks| then Some(toks[pos]) else None
  }

  function UpperAt(toks: seq<string>, pos: nat): (r: Option<string>)
    ensures r.Some? <==> pos < |toks|
    ensures r.Some? ==> r.value == UpperStr(toks[pos])
  {
    if pos < |toks| then Some(UpperStr(toks[pos])) else None
  }

  // ---------------------------------------------------------------------
  // The grammar, as functions of the token sequence and a position
  // ---------------------------------------------------------------------

  /** or_expr := and_expr ("OR" and_expr)* */
  function OrExpr(toks: seq<string>, pos: nat): (r: Outcome)
    requires pos <= |toks|
    ensures r.Ok? ==> pos < r.value.next <= |toks|
    decreases |toks| - pos, 6
  {
    match AndExpr(toks, pos)
    case Err(e) => Err(e)
    case Ok(Parsed(n, p)) => OrTail(toks, n, p)
  }

  /** The loop of _parse_or: folds "OR" operands to the left onto acc. */
  function OrTail(toks: seq<string>, acc: Node, pos: nat): (r: Outcome)
    requires pos <= |toks|
    ensures r.Ok? ==> pos <= r.value.next <= |toks|
    decreases |toks| - pos, 5
  {
    if UpperAt(toks, pos) == Some("OR") then
      match AndExpr(toks, pos + 1)
      case Err(e) => Err(e)
      case Ok(Parsed(rhs, p)) => OrTail(toks, Or(acc, rhs), p)
    else Ok(Parsed(acc, pos))
  }

  /** and_expr := not_expr (["AND"] not_expr)* */
  function AndExpr(toks: seq<string>, pos: nat): (r: Outcome)
    requires pos <= |toks|
    ensures r.Ok? ==> pos < r.value.next <= |toks|
    decreases |toks| - pos, 4
  {
    match NotExpr(toks, pos)
    case Err(e) => Err(e)
    case Ok(Parsed(n, p)) => AndTail(toks, n, p)
  }

  /** The loop of _parse_and: an explicit AND, or any next token but OR and ")", adds a conjunct. */
  function AndTail(toks: seq<string>, acc: Node, pos: nat): (r: Outcome)
    requires pos <= |toks|
    ensures r.Ok? ==> pos <= r.value.next <= |toks|
    decreases |toks| - pos, 3
  {
    var tok := UpperAt(toks, pos);
    if tok == Some("AND") then
      match NotExpr(toks, pos + 1)
      case Err(e) => Err(e)
      case Ok(Parsed(rhs, p)) => AndTail(toks, And(acc, rhs), p)
    else if tok.Some? && tok.value != "OR" && tok.value != ")" then
      match NotExpr(toks, pos)
      case Err(e) => Err(e)
      case Ok(Parsed(rhs, p)) => AndTail(toks, And(acc, rhs), p)
    else Ok(Parsed(acc, pos))
  }

  /** not_expr := "NOT" not_expr | primary */
  function NotExpr(toks: seq<string>, pos: nat): (r: Outcome)
    requires pos <= |toks|
    ensures r.Ok? ==> pos < r.value.next <= |toks|
    decreases |toks| - pos, 2
  {
    if UpperAt(toks, pos) == Some("NOT") then
      match NotExpr(toks, pos + 1)
      case Err(e) => Err(e)
      case Ok(Parsed(n, p)) => Ok(Parsed(Not(n), p))
    else PrimaryExpr(toks, pos)
  }

  /** primary := "(" or_expr ")" | field ":" "(" or_expr ")" | field ":" value | field:value | value */
  function PrimaryExpr(toks: seq<string>, pos: nat): (r: Outcome)
    requires pos <= |toks|
    ensures r.Ok? ==> pos < r.value.next <= |toks|
    decreases |toks| - pos, 1
  {
    if pos == |toks| then Err("Unexpected end while parsing term.")
    else if toks[pos] == "(" then GroupExpr(toks, pos)
    else if IsFieldToken(toks[pos]) then FieldExpr(toks, pos)
    else TermExpr(toks, pos)
  }

  /** A parenthesised group; the opening parenthesis is at pos. */
  function GroupExpr(toks: seq<string>, pos: nat): (r: Outcome)
    requires pos < |toks|
    ensures r.Ok? ==> pos < r.value.next <= |toks|
    decreases |toks| - pos, 0
  {
    match OrExpr(toks, pos + 1)
    case Err(e) => Err(e)
    case Ok(Parsed(n, p)) =>
      if p == |toks| then Err(EndOfQuery)
      else if toks[p] != ")" then Err("Missing closing parenthesis.")
      else Ok(Parsed(n, p + 1))
  }

  /** A field token "name:" at pos, then a scope "(" ... ")" or a single value token. */
  function FieldExpr(toks: seq<string>, pos: nat): (r: Outcome)
    requires pos < |toks| && IsFieldToken(toks[pos])
    ensures r.Ok? ==> pos < r.value.next <= |toks|
    decreases |toks| - pos, 0
  {
    var tok := toks[pos];
    var field := NormalizeField(tok[..|tok| - 1]);
    if pos + 1 < |toks| && toks[pos + 1] == "(" then
      match OrExpr(toks, pos + 2)
      case Err(e) => Err(e)
      case Ok(Parsed(n, p)) =>
        if p == |toks| then Err(EndOfQuery)
        else if toks[p] != ")" then Err("Missing closing parenthesis for field scope.")
        else if field.None? then Err("Unsupported field token: " + tok)
        else Ok(Parsed(Scoped(field.value, n), p + 1))
    else if pos + 1 == |toks| then Err(EndOfQuery)
    else Ok(Parsed(Term(field, StripQuotes(toks[pos + 1])), pos + 2))
  }

  /** A single token "field:value", or a bare value searched in the default field. */
  function TermExpr(toks: seq<string>, pos: nat): (r: Outcome)
    requires pos < |toks|
    ensures r.Ok? ==> pos < r.value.next <= |toks|
  {
    var tok := toks[pos];
    if ':' in tok && !StartsWith(tok, "http") && NormalizeField(Before(tok, ':')).Some? then
      var field := NormalizeField(Before(tok, ':'));
      if After(tok, ':') == "" then
        if pos + 1 == |toks| then Err(EndOfQuery)
        else Ok(Parsed(Term(field, StripQuotes(toks[pos + 1])), pos + 2))
      else Ok(Parsed(Term(field, StripQuotes(After(tok, ':'))), pos + 1))
    else Ok(Parsed(Term(None, StripQuotes(tok)), pos + 1))
  }

  /** QueryParser.parse from position pos: no tokens, or tokens left over, is an error. */
  function ParseFrom(toks: seq<string>, pos: nat): (r: Result<Node, string>)
    requires pos <= |toks|
    ensures |toks| == 0 ==> r == Err("Empty query.")
    ensures r.Ok? <==> |toks| > 0 && OrExpr(toks, pos).Ok? && OrExpr(toks, pos).value.next == |toks|
    ensures r.Ok? ==> OrExpr(toks, pos) == Ok(Parsed(r.value, |toks|))
  {
    if |toks| == 0 then Err("Empty query.")
    else
      match OrExpr(toks, pos)
      case Err(e) => Err(e)
      case Ok(Parsed(n, p)) => if p < |toks| then Err("Unexpected token: " + toks[p]) else Ok(n)
  }

  /** The syntax tree of a whole token sequence. */
  function Parse(toks: seq<string>): (r: Result<Node, string>)
    ensures |toks| == 0 ==> r == Err("Empty query.")
    ensures r.Ok? <==> |toks| > 0 && OrExpr(toks, 0).Ok? && OrExpr(toks, 0).value.next == |toks|
  {
    ParseFrom(toks, 0)
  }

  /** parse_query: tokenize, then parse. */
  function ParseQuery(query: string): (r: Result<Node, string>)
    ensures r == Parse(Tokenize(query))
    ensures Tokenize(query) == [] ==> r == Err("Empty query.")
  {
    Parse(Tokenize(query))
  }

  /** A method's result and the cursor after it, as the grammar functions give them. */
  function AsOutcome(r: Result<Node, string>, pos: nat): Outcome
  {
    match r
    case Ok(n) => Ok(Parsed(n, pos))
    case Err(e) => Err(e)
  }

  // ---------------------------------------------------------------------
  // The parser object
  // ---------------------------------------------------------------------

  class QueryParser {
    const tokens: seq<string>
    var pos: nat

    constructor (tokens: seq<string>)
      ensures this.tokens == tokens && pos == 0
    {
      this.tokens := tokens;
      pos := 0;
    }

    /** _peek */
    function Peek(): Option<string>
      reads this
    {
      TokenAt(tokens, pos)
    }

    /** _peek_upper */
    function PeekUpper(): Option<string>
      reads this
    {
      UpperAt(tokens, pos)
    }

    /** _consume: the current token, or "Unexpected end of query." at the end. */
    method Consume() returns (r: Result<string, string>)
      modifies this
      ensures r.Ok? <==> old(pos) < |tokens|
      ensures r.Ok? ==> r.value == tokens[old(pos)] && pos == old(pos) + 1
      ensures r.Err? ==> r.error == EndOfQuery && pos == old(pos)
    {
      if pos >= |tokens| {
        return Err(EndOfQuery);
      }
      r := Ok(tokens[pos]);
      pos := pos + 1;
    }

    /** parse */
    method Parse() returns (r: Result<Node, string>)
      requires pos <= |tokens|
      modifies this
      ensures r == ParseFrom(tokens, old(pos))
    {
      if |tokens| == 0 {
        return Err("Empty query.");
      }
      r := ParseOr();
      if r.Ok? && Peek().Some? {
        r := Err("Unexpected token: " + Peek().value);
      }
    }

    /** _parse_or */
    method ParseOr() returns (r: Result<Node, string>)
      requires pos <= |tokens|
      modifies this
      ensures pos <= |tokens|
      ensures AsOutcome(r, pos) == OrExpr(tokens, old(pos))
      decreases |tokens| - pos, 6
    {
      r := ParseAnd();
      if r.Err? {
        return;
      }
      var node := r.value;
      ghost var goal := OrExpr(tokens, old(pos));
      while PeekUpper() == Some("OR")
        invariant old(pos) < pos <= |tokens|
        invariant OrTail(tokens, node, pos) == goal
        decreases |tokens| - pos
      {
        var op := Consume();
        var rhs := ParseAnd();
        if rhs.Err? {
          return rhs;
        }
        node := Or(node, rhs.value);
      }
      r := Ok(node);
    }

    /** _parse_and */
    method ParseAnd() returns (r: Result<Node, string>)
      requires pos <= |tokens|
      modifies this
      ensures pos <= |tokens|
      ensures AsOutcome(r, pos) == AndExpr(tokens, old(pos))
      decreases |tokens| - pos, 4
    {
      r := ParseNot();
      if r.Err? {
        return;
      }
      var node := r.value;
      ghost var goal := AndExpr(tokens, old(pos));
      while true
        invariant old(pos) < pos <= |tokens|
        invariant AndTail(tokens, node, pos) == goal
        decreases |tokens| - pos
      {
        var tok := PeekUpper();
        ghost var here := pos;
        if tok == Some("AND") {
          var op := Consume();
          AndTailNext(tokens, node, here, pos);
          var rhs := ParseNot();
          if rhs.Err? {
            return rhs;
          }
          node := And(node, rhs.value);
        } else if tok.Some? && tok.value != "OR" && tok.value != ")" {
          AndTailNext(tokens, node, here, pos);
          var rhs := ParseNot();
          if rhs.Err? {
            return rhs;
          }
          node := And(node, rhs.value);
        } else {
          break;
        }
      }
      r := Ok(node);
    }

    /** _parse_not */
    method ParseNot() returns (r: Result<Node, string>)
      requires pos <= |tokens|
      modifies this
      ensures pos <= |tokens|
      ensures AsOutcome(r, pos) == NotExpr(tokens, old(pos))
      decreases |tokens| - pos, 2
    {
      if PeekUpper() == Some("NOT") {
        var op := Consume();
        var inner := ParseNot();
        if inner.Err? {
          return inner;
        }
        return Ok(Not(inner.value));
      }
      r := ParsePrimary();
    }

    /** _parse_primary */
    method ParsePrimary() returns (r: Result<Node, string>)
      requires pos <= |tokens|
      modifies this
      ensures pos <= |tokens|
      ensures AsOutcome(r, pos) == PrimaryExpr(tokens, old(pos))
      decreases |tokens| - pos, 1
    {
      if Peek().None? {
        return Err("Unexpected end while parsing term.");
      }
      var tok := Peek().value;
      if tok == "(" {
        r := ParseGroup();
      } else if IsFieldToken(tok) {
        r := ParseField();
      } else {
        r := ParseTerm();
      }
    }

    /** The parenthesised-group branch of _parse_primary. */
    method ParseGroup() returns (r: Result<Node, string>)
      requires pos < |tokens|
      modifies this
      ensures pos <= |tokens|
      ensures AsOutcome(r, pos) == GroupExpr(tokens, old(pos))
      decreases |tokens| - pos, 0
    {
      var open := Consume();
      r := ParseOr();
      if r.Err? {
        return;
      }
      var close := Consume();
      if close.Err? {
        return Err(close.error);
      }
      if close.value != ")" {
        return Err("Missing closing parenthesis.");
      }
    }

    /** The field-token branch of _parse_primary: a scope or a single value. */
    method ParseField() returns (r: Result<Node, string>)
      requires pos < |tokens| && IsFieldToken(tokens[pos])
      modifies this
      ensures pos <= |tokens|
      ensures AsOutcome(r, pos) == FieldExpr(tokens, old(pos))
      decreases |tokens| - pos, 0
    {
      var tok := tokens[pos];
      var field := NormalizeField(tok[..|tok| - 1]);
      var fieldToken := Consume();
      if Peek() == Some("(") {
        var open := Consume();
        var scoped := ParseOr();
        if scoped.Err? {
          return scoped;
        }
        var close := Consume();
        if close.Err? {
          return Err(close.error);
        }
        if close.value != ")" {
          return Err("Missing closing parenthesis for field scope.");
        }
        if field.None? {
          return Err("Unsupported field token: " + tok);
        }
        return Ok(Scoped(field.value, scoped.value));
      }
      var valueToken := Consume();
      if valueToken.Err? {
        return Err(valueToken.error);
      }
      return Ok(Term(field, StripQuotes(valueToken.value)));
    }

    /** The single-token branch of _parse_primary: "field:value" or a bare value. */
    method ParseTerm() returns (r: Result<Node, string>)
      requires pos < |tokens|
      modifies this
      ensures pos <= |tokens|
      ensures AsOutcome(r, pos) == TermExpr(tokens, old(pos))
    {
      var tok := tokens[pos];
      ghost var start := pos;
      var consumed := Consume();
      if ':' in tok && !StartsWith(tok, "http") {
        var field := NormalizeField(Before(tok, ':'));
        if field.Some? {
          var rawValue := After(tok, ':');
          if rawValue == "" {
            var valueToken := Consume();
            if valueToken.Err? {
              assert TermExpr(tokens, start) == Err(EndOfQuery);
              return Err(valueToken.error);
            }
            rawValue := valueToken.value;
            assert TermExpr(tokens, start) == Ok(Parsed(Term(field, StripQuotes(rawValue)), pos));
          } else {
            assert TermExpr(tokens, start) == Ok(Parsed(Term(field, StripQuotes(rawValue)), pos));
          }
          return Ok(Term(field, StripQuotes(rawValue)));
        }
      }
      assert TermExpr(tokens, start) == Ok(Parsed(Term(None, StripQuotes(tok)), pos));
      r := Ok(Term(None, StripQuotes(tok)));
    }
  }

  /** parse_query, run on a fresh parser object. */
  method RunParseQuery(query: string) returns (r: Result<Node, string>)
    ensures r == ParseQuery(query)
  {
    var parser := new QueryParser(Tokenize(query));
    r := parser.Parse();
  }

  // ---------------------------------------------------------------------
  // Properties of the parser
  // ---------------------------------------------------------------------

  /** A token the parser reads as a bare term: no operator, no parenthesis, no colon. */
  predicate Operand(t: string)
  {
    && ':' !in t && t != "("
    && UpperStr(t) != "AND" && UpperStr(t) != "OR" && UpperStr(t) != "NOT" && UpperStr(t) != ")"
  }

  /** The term a bare token stands for: searched in the default field. */
  function Bare(w: string): Node { Term(None, StripQuotes(w)) }

  lemma OperandIsTerm(toks: seq<string>, pos: nat)
    requires pos < |toks| && Operand(toks[pos])
    ensures NotExpr(toks, pos) == Ok(Parsed(Bare(toks[pos]), pos + 1))
  {
    var t := toks[pos];
    if |t| > 0 {
      assert t[|t| - 1] != ':';
    }
  }

  /** One conjunct of the AND loop: an operand is added to the accumulated tree. */
  lemma AndTailOperand(toks: seq<string>, acc: Node, pos: nat)
    requires pos < |toks| && Operand(toks[pos])
    ensures AndTail(toks, acc, pos) == AndTail(toks, And(acc, Bare(toks[pos])), pos + 1)
  {
    OperandIsTerm(toks, pos);
  }

  /** One round of the AND loop: the conjunct parsed from start extends the tail, or its error ends it. */
  lemma AndTailNext(toks: seq<string>, acc: Node, pos: nat, start: nat)
    requires start <= |toks|
    requires (start == pos + 1 && UpperAt(toks, pos) == Some("AND")) ||
             (start == pos && UpperAt(toks, pos).Some? && UpperAt(toks, pos).value !in {"AND", "OR", ")"})
    ensures NotExpr(toks, start).Err? ==> AndTail(toks, acc, pos) == Err(NotExpr(toks, start).error)
    ensures NotExpr(toks, start).Ok? ==>
      AndTail(toks, acc, pos) == AndTail(toks, And(acc, NotExpr(toks, start).value.node), NotExpr(toks, start).value.next)
  {
  }

  /** One conjunct of the AND loop after an explicit AND. */
  lemma AndTailAndOperand(toks: seq<string>, acc: Node, pos: nat)
    requires pos + 1 < |toks| && UpperStr(toks[pos]) == "AND" && Operand(toks[pos + 1])
    ensures AndTail(toks, acc, pos) == AndTail(toks, And(acc, Bare(toks[pos + 1])), pos + 2)
  {
    OperandIsTerm(toks, pos + 1);
  }

  /** One disjunct of the OR loop: an operand followed by OR or the end. */
  lemma OrTailOrOperand(toks: seq<string>, acc: Node, pos: nat)
    requires pos + 1 < |toks| && UpperStr(toks[pos]) == "OR" && Operand(toks[pos + 1])
    requires pos + 2 == |toks| || UpperStr(toks[pos + 2]) == "OR"
    ensures OrTail(toks, acc, pos) == OrTail(toks, Or(acc, Bare(toks[pos + 1])), pos + 2)
  {
    AndExprOperand(toks, pos + 1);
  }

  /** An operand followed by OR, by ")" or by nothing, is a whole AND-level expression. */
  lemma AndExprOperand(toks: seq<string>, pos: nat)
    requires pos < |toks| && Operand(toks[pos])
    requires pos + 1 == |toks| || UpperStr(toks[pos + 1]) == "OR" || toks[pos + 1] == ")"
    ensures AndExpr(toks, pos) == Ok(Parsed(Bare(toks[pos]), pos + 1))
  {
    OperandIsTerm(toks, pos);
    if pos + 1 < |toks| && toks[pos + 1] == ")" {
      UpperParen(toks[pos + 1]);
    }
  }

  /** A query whose first NOT-level expression is one token and whose AND loop reaches the end. */
  lemma ParseAndChain(toks: seq<string>, a: Node, n: Node)
    requires |toks| > 0
    requires NotExpr(toks, 0) == Ok(Parsed(a, 1))
    requires AndTail(toks, a, 1) == Ok(Parsed(n, |toks|))
    ensures Parse(toks) == Ok(n)
  {
    AndExprAt(toks, 0, a, 1, Ok(Parsed(n, |toks|)));
    ParseWhole(toks, n);
  }

  lemma ParseOperandThenAnd(toks: seq<string>, n: Node)
    requires |toks| > 0 && Operand(toks[0])
    requires AndTail(toks, Bare(toks[0]), 1) == Ok(Parsed(n, |toks|))
    ensures Parse(toks) == Ok(n)
  {
    OperandIsTerm(toks, 0);
    ParseAndChain(toks, Bare(toks[0]), n);
  }

  /** and_expr is its first NOT-level expression followed by the AND loop. */
  lemma AndExprAt(toks: seq<string>, pos: nat, a: Node, p: nat, r: Outcome)
    requires pos < p <= |toks|
    requires NotExpr(toks, pos) == Ok(Parsed(a, p))
    requires AndTail(toks, a, p) == r
    ensures AndExpr(toks, pos) == r
  {
  }

  /** or_expr is its first AND-level expression followed by the OR loop. */
  lemma OrExprAt(toks: seq<string>, pos: nat, a: Node, p: nat, r: Outcome)
    requires pos < p <= |toks|
    requires AndExpr(toks, pos) == Ok(Parsed(a, p))
    requires OrTail(toks, a, p) == r
    ensures OrExpr(toks, pos) == r
  {
  }

  /** One step of the OR loop. */
  lemma OrTailStep(toks: seq<string>, acc: Node, pos: nat, rhs: Node, p: nat)
    requires pos < |toks| && UpperStr(toks[pos]) == "OR"
    requires pos + 1 < p <= |toks| && AndExpr(toks, pos + 1) == Ok(Parsed(rhs, p))
    ensures OrTail(toks, acc, pos) == OrTail(toks, Or(acc, rhs), p)
  {
  }

  /** A whole query whose AND-level parse reaches the end is that parse. */
  lemma ParseWhole(toks: seq<string>, n: Node)
    requires |toks| > 0
    requires AndExpr(toks, 0) == Ok(Parsed(n, |toks|))
    ensures Parse(toks) == Ok(n)
  {
    OrTailAtEnd(toks, n);
    OrExprAt(toks, 0, n, |toks|, Ok(Parsed(n, |toks|)));
    ParseOrWhole(toks, n);
  }

  /** The OR loop has nothing to do at the end of the tokens. */
  lemma OrTailAtEnd(toks: seq<string>, acc: Node)
    ensures OrTail(toks, acc, |toks|) == Ok(Parsed(acc, |toks|))
  {
    assert UpperAt(toks, |toks|) == None;
  }

  /** The AND loop stops in front of OR. */
  lemma AndTailAtOr(toks: seq<string>, acc: Node, pos: nat)
    requires pos < |toks| && UpperStr(toks[pos]) == "OR"
    ensures AndTail(toks, acc, pos) == Ok(Parsed(acc, pos))
  {
    assert UpperAt(toks, pos) == Some("OR");
  }

  /** A query whose first AND-level expression is one token and whose OR loop reaches the end. */
  lemma ParseOrChain(toks: seq<string>, a: Node, n: Node)
    requires |toks| > 0
    requires AndExpr(toks, 0) == Ok(Parsed(a, 1))
    requires OrTail(toks, a, 1) == Ok(Parsed(n, |toks|))
    ensures Parse(toks) == Ok(n)
  {
  }

  /** Every token of ws is an operand (stated recursively, so that it is unfolded one step at a time). */
  predicate AllOperands(ws: seq<string>)
    decreases |ws|
  {
    |ws| == 0 || (Operand(ws[0]) && AllOperands(ws[1..]))
  }

  lemma {:induction false} AllOperandsAt(ws: seq<string>, k: nat)
    requires AllOperands(ws) && k < |ws|
    ensures Operand(ws[k])
    decreases k
  {
    if k > 0 {
      AllOperandsAt(ws[1..], k - 1);
    }
  }

  /** The terms of ws joined by AND, nested to the left. */
  function Conj(ws: seq<string>, leaf: string -> Node): Node
    requires |ws| > 0
  {
    if |ws| == 1 then leaf(ws[0]) else And(Conj(ws[..|ws| - 1], leaf), leaf(ws[|ws| - 1]))
  }

  lemma ConjSnoc(ws: seq<string>, leaf: string -> Node, k: nat)
    requires 0 < k < |ws|
    ensures Conj(ws[..k + 1], leaf) == And(Conj(ws[..k], leaf), leaf(ws[k]))
  {
    assert ws[..k + 1][..k] == ws[..k];
  }

  /** The terms of ws joined by OR, nested to the left. */
  function Disj(ws: seq<string>, leaf: string -> Node): Node
    requires |ws| > 0
  {
    if |ws| == 1 then leaf(ws[0]) else Or(Disj(ws[..|ws| - 1], leaf), leaf(ws[|ws| - 1]))
  }

  lemma DisjSnoc(ws: seq<string>, leaf: string -> Node, k: nat)
    requires 0 < k < |ws|
    ensures Disj(ws[..k + 1], leaf) == Or(Disj(ws[..k], leaf), leaf(ws[k]))
  {
    assert ws[..k + 1][..k] == ws[..k];
  }

  /** The words ws with the operator token op between neighbours. */
  function Separated(ws: seq<string>, op: string): (r: seq<string>)
    requires |ws| > 0
    ensures |r| == 2 * |ws| - 1
  {
    if |ws| == 1 then [ws[0]] else Separated(ws[..|ws| - 1], op) + [op, ws[|ws| - 1]]
  }

  lemma {:induction false} SeparatedAt(ws: seq<string>, op: string, k: nat)
    requires k < |ws|
    ensures Separated(ws, op)[2 * k] == ws[k]
    ensures k + 1 < |ws| ==> Separated(ws, op)[2 * k + 1] == op
    decreases |ws|
  {
    if |ws| > 1 && k + 1 < |ws| {
      SeparatedAt(ws[..|ws| - 1], op, k);
    }
  }

  lemma {:induction false} AndTailOperands(ws: seq<string>, k: nat)
    requires 0 < k <= |ws|
    requires AllOperands(ws)
    ensures AndTail(ws, Conj(ws[..k], Bare), k) == Ok(Parsed(Conj(ws, Bare), |ws|))
    decreases |ws| - k
  {
    if k == |ws| {
      assert ws[..k] == ws;
    } else {
      AllOperandsAt(ws, k);
      AndTailOperand(ws, Conj(ws[..k], Bare), k);
      ConjSnoc(ws, Bare, k);
      AndTailOperands(ws, k + 1);
    }
  }

  /** Operands side by side are joined by an implicit AND, nested to the left. */
  lemma ParseImplicitAnd(ws: seq<string>)
    requires |ws| > 0
    requires AllOperands(ws)
    ensures Parse(ws) == Ok(Conj(ws, Bare))
  {
    assert ws[..1] == [ws[0]];
    AndTailOperands(ws, 1);
    ParseOperandThenAnd(ws, Conj(ws, Bare));
  }

  /**
   * From pos to the end, toks alternates an operator whose upper-case form
   * is opName with an operand.
   */
  predicate OpRun(toks: seq<string>, pos: nat, opName: string)
    decreases |toks| - pos
  {
    || pos == |toks|
    || (pos + 1 < |toks| && UpperStr(toks[pos]) == opName && Operand(toks[pos + 1]) && OpRun(toks, pos + 2, opName))
  }

  /** The operands of a run from pos, added to acc by AND, nested to the left. */
  function AndFold(toks: seq<string>, acc: Node, pos: nat, leaf: string -> Node): Node
    decreases |toks| - pos
  {
    if pos + 1 < |toks| then AndFold(toks, And(acc, leaf(toks[pos + 1])), pos + 2, leaf) else acc
  }

  /** The operands of a run from pos, added to acc by OR, nested to the left. */
  function OrFold(toks: seq<string>, acc: Node, pos: nat, leaf: string -> Node): Node
    decreases |toks| - pos
  {
    if pos + 1 < |toks| then OrFold(toks, Or(acc, leaf(toks[pos + 1])), pos + 2, leaf) else acc
  }

  lemma {:induction false} AndTailRun(toks: seq<string>, acc: Node, pos: nat)
    requires pos <= |toks| && OpRun(toks, pos, "AND")
    ensures AndTail(toks, acc, pos) == Ok(Parsed(AndFold(toks, acc, pos, Bare), |toks|))
    decreases |toks| - pos
  {
    if pos < |toks| {
      AndTailAndOperand(toks, acc, pos);
      AndTailRun(toks, And(acc, Bare(toks[pos + 1])), pos + 2);
    }
  }

  lemma {:induction false} OrTailRun(toks: seq<string>, acc: Node, pos: nat)
    requires pos <= |toks| && OpRun(toks, pos, "OR")
    ensures OrTail(toks, acc, pos) == Ok(Parsed(OrFold(toks, acc, pos, Bare), |toks|))
    decreases |toks| - pos
  {
    if pos < |toks| {
      OrTailOrOperand(toks, acc, pos);
      OrTailRun(toks, Or(acc, Bare(toks[pos + 1])), pos + 2);
    }
  }

  /** Separated(ws, op) is a run of op and the words after its first word. */
  lemma {:induction false} SeparatedRun(ws: seq<string>, op: string, k: nat)
    requires 0 < k <= |ws| && AllOperands(ws)
    ensures OpRun(Separated(ws, op), 2 * k - 1, UpperStr(op))
    decreases |ws| - k
  {
    if k < |ws| {
      SeparatedAt(ws, op, k - 1);
      SeparatedAt(ws, op, k);
      AllOperandsAt(ws, k);
      SeparatedRun(ws, op, k + 1);
    }
  }

  lemma {:induction false} SeparatedAndFold(ws: seq<string>, op: string, leaf: string -> Node, k: nat)
    requires 0 < k <= |ws|
    ensures AndFold(Separated(ws, op), Conj(ws[..k], leaf), 2 * k - 1, leaf) == Conj(ws, leaf)
    decreases |ws| - k
  {
    if k == |ws| {
      assert ws[..k] == ws;
    } else {
      SeparatedAt(ws, op, k);
      ConjSnoc(ws, leaf, k);
      SeparatedAndFold(ws, op, leaf, k + 1);
    }
  }

  lemma {:induction false} SeparatedOrFold(ws: seq<string>, op: string, leaf: string -> Node, k: nat)
    requires 0 < k <= |ws|
    ensures OrFold(Separated(ws, op), Disj(ws[..k], leaf), 2 * k - 1, leaf) == Disj(ws, leaf)
    decreases |ws| - k
  {
    if k == |ws| {
      assert ws[..k] == ws;
    } else {
      SeparatedAt(ws, op, k);
      DisjSnoc(ws, leaf, k);
      SeparatedOrFold(ws, op, leaf, k + 1);
    }
  }

  /** Folding the rest of Separated(ws, op) onto its first word builds the left-nested AND of ws. */
  lemma SeparatedConj(ws: seq<string>, op: string, leaf: string -> Node)
    requires |ws| > 0
    ensures Separated(ws, op)[0] == ws[0]
    ensures AndFold(Separated(ws, op), leaf(ws[0]), 1, leaf) == Conj(ws, leaf)
  {
    SeparatedAt(ws, op, 0);
    assert ws[..1] == [ws[0]];
    SeparatedAndFold(ws, op, leaf, 1);
  }

  /** Folding the rest of Separated(ws, op) onto its first word builds the left-nested OR of ws. */
  lemma SeparatedDisj(ws: seq<string>, op: string, leaf: string -> Node)
    requires |ws| > 0
    ensures Separated(ws, op)[0] == ws[0]
    ensures OrFold(Separated(ws, op), leaf(ws[0]), 1, leaf) == Disj(ws, leaf)
  {
    SeparatedAt(ws, op, 0);
    assert ws[..1] == [ws[0]];
    SeparatedOrFold(ws, op, leaf, 1);
  }

  lemma ParseOperandThenOr(toks: seq<string>, n: Node)
    requires |toks| > 0 && Operand(toks[0])
    requires |toks| == 1 || UpperStr(toks[1]) == "OR"
    requires OrTail(toks, Bare(toks[0]), 1) == Ok(Parsed(n, |toks|))
    ensures Parse(toks) == Ok(n)
  {
    AndExprOperand(toks, 0);
    ParseOrChain(toks, Bare(toks[0]), n);
  }

  /** An explicit AND, in any letter case, parses as the implicit one. */
  lemma ParseExplicitAnd(ws: seq<string>, op: string)
    requires |ws| > 0 && UpperStr(op) == "AND"
    requires AllOperands(ws)
    ensures Parse(Separated(ws, op)) == Ok(Conj(ws, Bare))
  {
    var s := Separated(ws, op);
    SeparatedRun(ws, op, 1);
    SeparatedConj(ws, op, Bare);
    AndTailRun(s, Bare(ws[0]), 1);
    ParseOperandThenAnd(s, Conj(ws, Bare));
  }

  /** OR, in any letter case, groups to the left. */
  lemma ParseExplicitOr(ws: seq<string>, op: string)
    requires |ws| > 0 && UpperStr(op) == "OR"
    requires AllOperands(ws)
    ensures Parse(Separated(ws, op)) == Ok(Disj(ws, Bare))
  {
    var s := Separated(ws, op);
    SeparatedRun(ws, op, 1);
    SeparatedDisj(ws, op, Bare);
    OrTailRun(s, Bare(ws[0]), 1);
    ParseOperandThenOr(s, Disj(ws, Bare));
  }

  /** AND binds tighter than OR: a OR b AND c is a OR (b AND c). */
  lemma AndBindsTighterThanOr(toks: seq<string>)
    requires |toks| == 5 && Operand(toks[0]) && Operand(toks[2]) && Operand(toks[4])
    requires UpperStr(toks[1]) == "OR" && UpperStr(toks[3]) == "AND"
    ensures Parse(toks) == Ok(Or(Bare(toks[0]), And(Bare(toks[2]), Bare(toks[4]))))
  {
    var rhs := And(Bare(toks[2]), Bare(toks[4]));
    OperandIsTerm(toks, 2);
    AndTailAndOperand(toks, Bare(toks[2]), 3);
    AndExprAt(toks, 2, Bare(toks[2]), 3, Ok(Parsed(rhs, 5)));
    OrTailStep(toks, Bare(toks[0]), 1, rhs, 5);
    ParseOperandThenOr(toks, Or(Bare(toks[0]), rhs));
  }

  /** "a AND b" in front of OR is one AND-level expression. */
  lemma AndPairBeforeOr(toks: seq<string>, pos: nat)
    requires pos + 3 < |toks| && Operand(toks[pos]) && Operand(toks[pos + 2])
    requires UpperStr(toks[pos + 1]) == "AND" && UpperStr(toks[pos + 3]) == "OR"
    ensures AndExpr(toks, pos) == Ok(Parsed(And(Bare(toks[pos]), Bare(toks[pos + 2])), pos + 3))
  {
    var lhs := And(Bare(toks[pos]), Bare(toks[pos + 2]));
    OperandIsTerm(toks, pos);
    AndTailAndOperand(toks, Bare(toks[pos]), pos + 1);
    AndTailAtOr(toks, lhs, pos + 3);
    AndExprAt(toks, pos, Bare(toks[pos]), pos + 1, Ok(Parsed(lhs, pos + 3)));
  }

  /** AND binds tighter than OR on the left too: a AND b OR c is (a AND b) OR c. */
  lemma AndBeforeOr(toks: seq<string>)
    requires |toks| == 5 && Operand(toks[0]) && Operand(toks[2]) && Operand(toks[4])
    requires UpperStr(toks[1]) == "AND" && UpperStr(toks[3]) == "OR"
    ensures Parse(toks) == Ok(Or(And(Bare(toks[0]), Bare(toks[2])), Bare(toks[4])))
  {
    var lhs := And(Bare(toks[0]), Bare(toks[2]));
    AndPairBeforeOr(toks, 0);
    AndExprOperand(toks, 4);
    OrTailAtEnd(toks, Or(lhs, Bare(toks[4])));
    OrTailStep(toks, lhs, 3, Bare(toks[4]), 5);
    OrExprAt(toks, 0, lhs, 3, Ok(Parsed(Or(lhs, Bare(toks[4])), 5)));
    ParseOrWhole(toks, Or(lhs, Bare(toks[4])));
  }

  /** NOT applies to the single expression after it: NOT a b is (NOT a) AND b. */
  lemma NotBindsTightest(toks: seq<string>)
    requires |toks| == 3 && UpperStr(toks[0]) == "NOT" && Operand(toks[1]) && Operand(toks[2])
    ensures Parse(toks) == Ok(And(Not(Bare(toks[1])), Bare(toks[2])))
  {
    OperandIsTerm(toks, 1);
    assert NotExpr(toks, 0) == Ok(Parsed(Not(Bare(toks[1])), 2));
    AndTailOperand(toks, Not(Bare(toks[1])), 2);
    AndExprAt(toks, 0, Not(Bare(toks[1])), 2, Ok(Parsed(And(Not(Bare(toks[1])), Bare(toks[2])), 3)));
    ParseWhole(toks, And(Not(Bare(toks[1])), Bare(toks[2])));
  }

  /** Parentheses override precedence: ( a OR b ) c is (a OR b) AND c. */
  lemma GroupOverridesPrecedence(toks: seq<string>)
    requires |toks| == 6 && toks[0] == "(" && toks[4] == ")"
    requires Operand(toks[1]) && UpperStr(toks[2]) == "OR" && Operand(toks[3]) && Operand(toks[5])
    ensures Parse(toks) == Ok(And(Or(Bare(toks[1]), Bare(toks[3])), Bare(toks[5])))
  {
    var g := Or(Bare(toks[1]), Bare(toks[3]));
    AndExprOperand(toks, 1);
    AndExprOperand(toks, 3);
    OrTailStep(toks, Bare(toks[1]), 2, Bare(toks[3]), 4);
    OrExprAt(toks, 1, Bare(toks[1]), 2, Ok(Parsed(g, 4)));
    GroupIsPrimary(toks, g, 5);
    AndTailOperand(toks, g, 5);
    AndExprAt(toks, 0, g, 5, Ok(Parsed(And(g, Bare(toks[5])), 6)));
    ParseWhole(toks, And(g, Bare(toks[5])));
  }

  /** Upper-casing leaves a parenthesis token unchanged. */
  lemma UpperParen(t: string)
    requires t == "(" || t == ")"
    ensures UpperStr(t) == t
  {
    assert UpperStr(t)[0] == Upper(t[0]);
  }

  /** A group whose OR expression ends at a ")" is a NOT-level expression. */
  lemma GroupIsPrimary(toks: seq<string>, g: Node, p: nat)
    requires 0 < p <= |toks| && toks[0] == "(" && toks[p - 1] == ")"
    requires 1 < p - 1 && OrExpr(toks, 1) == Ok(Parsed(g, p - 1))
    ensures NotExpr(toks, 0) == Ok(Parsed(g, p))
  {
    UpperParen(toks[0]);
    assert GroupExpr(toks, 0) == Ok(Parsed(g, p));
    assert PrimaryExpr(toks, 0) == Ok(Parsed(g, p));
  }

  /** A whole query whose OR-level parse reaches the end is that parse. */
  lemma ParseOrWhole(toks: seq<string>, n: Node)
    requires |toks| > 0
    requires OrExpr(toks, 0) == Ok(Parsed(n, |toks|))
    ensures Parse(toks) == Ok(n)
  {
  }

  /** Nothing left where a term is expected. */
  lemma NotExprAtEnd(toks: seq<string>)
    ensures NotExpr(toks, |toks|) == Err("Unexpected end while parsing term.")
    ensures AndExpr(toks, |toks|) == Err("Unexpected end while parsing term.")
  {
  }

  /** An operator with nothing after it: "Unexpected end while parsing term.". */
  lemma DanglingOperator(toks: seq<string>)
    requires |toks| == 2 && Operand(toks[0])
    requires UpperStr(toks[1]) == "AND" || UpperStr(toks[1]) == "OR" || UpperStr(toks[1]) == "NOT"
    ensures Parse(toks) == Err("Unexpected end while parsing term.")
  {
    NotExprAtEnd(toks);
    if UpperStr(toks[1]) == "OR" {
      AndExprOperand(toks, 0);
      DanglingOr(toks);
    } else {
      OperandIsTerm(toks, 0);
      DanglingAndNot(toks);
    }
  }

  lemma DanglingOr(toks: seq<string>)
    requires |toks| == 2 && UpperStr(toks[1]) == "OR"
    requires AndExpr(toks, 0) == Ok(Parsed(Bare(toks[0]), 1))
    requires AndExpr(toks, 2) == Err("Unexpected end while parsing term.")
    ensures OrExpr(toks, 0) == Err("Unexpected end while parsing term.")
  {
  }

  lemma DanglingAndNot(toks: seq<string>)
    requires |toks| == 2 && (UpperStr(toks[1]) == "AND" || UpperStr(toks[1]) == "NOT")
    requires NotExpr(toks, 0) == Ok(Parsed(Bare(toks[0]), 1))
    requires NotExpr(toks, 2) == Err("Unexpected end while parsing term.")
    ensures OrExpr(toks, 0) == Err("Unexpected end while parsing term.")
  {
    var e: Outcome := Err("Unexpected end while parsing term.");
    if UpperStr(toks[1]) == "NOT" {
      assert NotExpr(toks, 1) == e;
    }
    assert AndTail(toks, Bare(toks[0]), 1) == e;
    AndExprAt(toks, 0, Bare(toks[0]), 1, e);
  }

  /** A parenthesis never closed: "Unexpected end of query.". */
  lemma UnclosedGroup(toks: seq<string>)
    requires |toks| == 2 && toks[0] == "(" && Operand(toks[1])
    ensures Parse(toks) == Err(EndOfQuery)
  {
    var e: Outcome := Err(EndOfQuery);
    AndExprOperand(toks, 1);
    OrExprAt(toks, 1, Bare(toks[1]), 2, Ok(Parsed(Bare(toks[1]), 2)));
    UpperParen(toks[0]);
    assert GroupExpr(toks, 0) == e;
    assert NotExpr(toks, 0) == e;
    assert AndExpr(toks, 0) == e;
    assert OrExpr(toks, 0) == e;
  }

  /** A closing parenthesis without an opening one: "Unexpected token: )". */
  lemma StrayClose(toks: seq<string>)
    requires |toks| == 2 && Operand(toks[0]) && toks[1] == ")"
    ensures Parse(toks) == Err("Unexpected token: )")
  {
    AndExprOperand(toks, 0);
    UpperParen(toks[1]);
    OrExprAt(toks, 0, Bare(toks[0]), 1, Ok(Parsed(Bare(toks[0]), 1)));
    assert "Unexpected token: " + toks[1] == "Unexpected token: )";
  }

  /** The only token whose upper-case form is ")" is ")" itself. */
  lemma UpperIsClose(t: string)
    requires UpperStr(t) == ")"
    ensures t == ")"
  {
    assert Upper(t[0]) == ')';
  }

  /** Where the AND loop stops: at the end, at an OR or at a ")". */
  predicate AndStop(toks: seq<string>, q: nat)
  {
    q >= |toks| || UpperStr(toks[q]) == "OR" || UpperStr(toks[q]) == ")"
  }

  lemma {:induction false} AndTailStops(toks: seq<string>, acc: Node, pos: nat)
    requires pos <= |toks|
    ensures AndTail(toks, acc, pos).Ok? ==> AndStop(toks, AndTail(toks, acc, pos).value.next)
    decreases |toks| - pos
  {
    var tok := UpperAt(toks, pos);
    if tok == Some("AND") {
      var rn := NotExpr(toks, pos + 1);
      if rn.Ok? {
        AndTailStops(toks, And(acc, rn.value.node), rn.value.next);
      }
    } else if tok.Some? && tok.value != "OR" && tok.value != ")" {
      var rn := NotExpr(toks, pos);
      if rn.Ok? {
        AndTailStops(toks, And(acc, rn.value.node), rn.value.next);
      }
    }
  }

  lemma AndExprStops(toks: seq<string>, pos: nat)
    requires pos <= |toks|
    ensures AndExpr(toks, pos).Ok? ==> AndStop(toks, AndExpr(toks, pos).value.next)
  {
    var rn := NotExpr(toks, pos);
    if rn.Ok? {
      AndTailStops(toks, rn.value.node, rn.value.next);
    }
  }

  lemma {:induction false} OrTailStops(toks: seq<string>, acc: Node, pos: nat)
    requires pos <= |toks| && AndStop(toks, pos)
    ensures OrTail(toks, acc, pos).Ok? ==> (var q := OrTail(toks, acc, pos).value.next; q == |toks| || UpperStr(toks[q]) == ")")
    decreases |toks| - pos
  {
    if UpperAt(toks, pos) == Some("OR") {
      var ra := AndExpr(toks, pos + 1);
      AndExprStops(toks, pos + 1);
      if ra.Ok? {
        OrTailStops(toks, Or(acc, ra.value.node), ra.value.next);
      }
    }
  }

  /** An OR expression that parses stops at the end of the query or at a ")". */
  lemma OrExprStops(toks: seq<string>, pos: nat)
    requires pos <= |toks|
    ensures OrExpr(toks, pos).Ok? ==> (var q := OrExpr(toks, pos).value.next; q == |toks| || toks[q] == ")")
  {
    var ra := AndExpr(toks, pos);
    AndExprStops(toks, pos);
    if ra.Ok? {
      OrTailStops(toks, ra.value.node, ra.value.next);
      var q := OrTail(toks, ra.value.node, ra.value.next);
      if q.Ok? && q.value.next < |toks| {
        UpperIsClose(toks[q.value.next]);
      }
    }
  }

  /**
   * A parenthesised group fails only where its inside fails or where the
   * query ends: "Missing closing parenthesis." is never the outcome.
   */
  lemma GroupErrors(toks: seq<string>, pos: nat)
    requires pos < |toks|
    ensures GroupExpr(toks, pos).Err? ==> OrExpr(toks, pos + 1).Err? || GroupExpr(toks, pos) == Err(EndOfQuery)
  {
    OrExprStops(toks, pos + 1);
  }

  /**
   * A field token fails only where its scope fails or where the query ends:
   * neither "Missing closing parenthesis for field scope." nor
   * "Unsupported field token" is ever the outcome.
   */
  lemma FieldErrors(toks: seq<string>, pos: nat)
    requires pos < |toks| && IsFieldToken(toks[pos])
    ensures FieldExpr(toks, pos).Err? ==>
      FieldExpr(toks, pos) == Err(EndOfQuery) || (pos + 2 <= |toks| && OrExpr(toks, pos + 2).Err?)
  {
    if pos + 1 < |toks| {
      OrExprStops(toks, pos + 2);
    }
  }

  // ---------------------------------------------------------------------
  // Whole queries of plain words
  // ---------------------------------------------------------------------

  /** A plain word without a colon is an operand. */
  lemma PlainIsOperand(w: string)
    requires Plain(w) && ':' !in w
    ensures Operand(w)
  {
    if |w| == 3 {
      assert w[..3] == w;
    }
    if |w| == 2 {
      assert w[..2] == w;
    }
  }

  lemma {:induction false} PlainWordsOperands(ws: seq<string>)
    requires forall k :: 0 <= k < |ws| ==> Plain(ws[k]) && ':' !in ws[k]
    ensures AllOperands(ws)
    decreases |ws|
  {
    if |ws| > 0 {
      PlainIsOperand(ws[0]);
      PlainWordsOperands(ws[1..]);
    }
  }

  /** A plain word without a backslash is its own search term. */
  lemma StripQuotesPlain(w: string)
    requires Plain(w) && '\\' !in w
    ensures StripQuotes(w) == w
  {
    ReplaceAbsent(w, "\\\"", "\"");
  }

  /** Plain words separated by spaces: the query is the AND of the words, nested to the left. */
  lemma ParsePlainWords(ws: seq<string>)
    requires |ws| > 0
    requires forall k :: 0 <= k < |ws| ==> Plain(ws[k]) && ':' !in ws[k]
    ensures ParseQuery(Join(ws, " ")) == Ok(Conj(ws, Bare))
  {
    TokenizePlainWords(ws);
    PlainWordsOperands(ws);
    ParseImplicitAnd(ws);
  }

  /** The AND of the leaves holds exactly when every leaf holds. */
  lemma EvalConj(ws: seq<string>, leaf: string -> Node, title: string, abstractText: string, d: Option<string>)
    requires |ws| > 0
    ensures Eval(Conj(ws, leaf), title, abstractText, d) <==> forall k :: 0 <= k < |ws| ==> Eval(leaf(ws[k]), title, abstractText, d)
  {
    ConjHolds(ws, leaf, n => Eval(n, title, abstractText, d));
  }

  /** The OR of the leaves holds exactly when some leaf holds. */
  lemma EvalDisj(ws: seq<string>, leaf: string -> Node, title: string, abstractText: string, d: Option<string>)
    requires |ws| > 0
    ensures Eval(Disj(ws, leaf), title, abstractText, d) <==> exists k :: 0 <= k < |ws| && Eval(leaf(ws[k]), title, abstractText, d)
  {
    DisjHolds(ws, leaf, n => Eval(n, title, abstractText, d));
  }

  /** Under any valuation that reads And as conjunction, the AND of the leaves is the conjunction of the leaves. */
  lemma {:induction false} ConjHolds(ws: seq<string>, leaf: string -> Node, ev: Node -> bool)
    requires |ws| > 0
    requires forall l, r :: ev(And(l, r)) == (ev(l) && ev(r))
    ensures ev(Conj(ws, leaf)) <==> forall k :: 0 <= k < |ws| ==> ev(leaf(ws[k]))
    decreases |ws|
  {
    if |ws| > 1 {
      var init := ws[..|ws| - 1];
      ConjHolds(init, leaf, ev);
      assert Conj(ws, leaf) == And(Conj(init, leaf), leaf(ws[|ws| - 1]));
      assert forall k :: 0 <= k < |init| ==> init[k] == ws[k];
    }
  }

  /** Under any valuation that reads Or as disjunction, the OR of the leaves is the disjunction of the leaves. */
  lemma {:induction false} DisjHolds(ws: seq<string>, leaf: string -> Node, ev: Node -> bool)
    requires |ws| > 0
    requires forall l, r :: ev(Or(l, r)) == (ev(l) || ev(r))
    ensures ev(Disj(ws, leaf)) <==> exists k :: 0 <= k < |ws| && ev(leaf(ws[k]))
    decreases |ws|
  {
    if |ws| > 1 {
      var init := ws[..|ws| - 1];
      DisjHolds(init, leaf, ev);
      assert Disj(ws, leaf) == Or(Disj(init, leaf), leaf(ws[|ws| - 1]));
      assert forall k :: 0 <= k < |init| ==> init[k] == ws[k];
    }
  }

  /**
   * Searching for plain words separated by spaces matches a record exactly
   * when every word matches its title and abstract joined by a newline.
   */
  lemma SearchPlainWords(ws: seq<string>, title: string, abstractText: string)
    requires |ws| > 0
    requires forall k :: 0 <= k < |ws| ==> Plain(ws[k]) && ':' !in ws[k] && '\\' !in ws[k]
    ensures ParseQuery(Join(ws, " ")).Ok?
    ensures Eval(ParseQuery(Join(ws, " ")).value, title, abstractText, None)
      <==> forall k :: 0 <= k < |ws| ==> MatchTerm(ws[k], title + "\n" + abstractText)
  {
    ParsePlainWords(ws);
    EvalConj(ws, Bare, title, abstractText, None);
    forall k | 0 <= k < |ws|
      ensures Eval(Bare(ws[k]), title, abstractText, None) == MatchTerm(ws[k], title + "\n" + abstractText)
    {
      StripQuotesPlain(ws[k]);
    }
  }

  // ---------------------------------------------------------------------
  // Matching and evaluation
  // ---------------------------------------------------------------------

  /**
   * The pattern p (literal characters, each `*` standing for any run of
   * non-newline characters) matches a prefix of s.
   */
  predicate GlobPrefix(p: string, s: string)
    decreases |p| + |s|
  {
    if |p| == 0 then true
    else if p[0] == '*' then GlobPrefix(p[1..], s) || (|s| > 0 && s[0] != '\n' && GlobPrefix(p, s[1..]))
    else |s| > 0 && s[0] == p[0] && GlobPrefix(p[1..], s[1..])
  }

  /** re.search: the pattern matches somewhere in s. */
  predicate GlobSearch(p: string, s: string)
    decreases |s|
  {
    GlobPrefix(p, s) || (|s| > 0 && GlobSearch(p, s[1..]))
  }

  /** _match_term: an empty term never matches; otherwise a case-insensitive substring or wildcard test. */
  function MatchTerm(term: string, text: string): (r: bool)
    ensures |term| == 0 ==> !r
    ensures |term| > 0 && '*' !in term ==> (r <==> Contains(LowerStr(text), LowerStr(term)))
    ensures |term| > 0 && '*' in term ==> (r <==> GlobSearch(LowerStr(term), LowerStr(text)))
  {
    if |term| == 0 then false
    else
      var needle := LowerStr(term);
      var hay := LowerStr(text);
      assert '*' in needle <==> '*' in term by {
        assert forall k :: 0 <= k < |term| ==> (needle[k] == '*' <==> term[k] == '*');
      }
      if '*' in needle then GlobSearch(needle, hay) else Contains(hay, needle)
  }

  /** _field_text: the text a field searches; `any` and no field search both, joined by a newline. */
  function FieldText(field: Option<string>, title: string, abstractText: string): (r: string)
    ensures field == Some("title") ==> r == title
    ensures field == Some("abstract") ==> r == abstractText
    ensures field != Some("title") && field != Some("abstract") ==>
      |r| == |title| + 1 + |abstractText| && r[..|title|] == title && r[|title|] == '\n' && r[|title| + 1..] == abstractText
  {
    if field == Some("title") then title
    else if field == Some("abstract") then abstractText
    else title + "\n" + abstractText
  }

  /** evaluate: a term searches its own field, else the default field; a scope sets the default. */
  function Eval(n: Node, title: string, abstractText: string, defaultField: Option<string>): bool
  {
    match n
    case Term(f, v) => MatchTerm(v, FieldText(if f.Some? then f else defaultField, title, abstractText))
    case And(l, r) => Eval(l, title, abstractText, defaultField) && Eval(r, title, abstractText, defaultField)
    case Or(l, r) => Eval(l, title, abstractText, defaultField) || Eval(r, title, abstractText, defaultField)
    case Not(m) => !Eval(m, title, abstractText, defaultField)
    case Scoped(f, m) => Eval(m, title, abstractText, Some(f))
  }

  // ---------------------------------------------------------------------
  // Properties of the matcher
  // ---------------------------------------------------------------------

  /** Without a `*`, the wildcard pattern is a plain prefix test. */
  lemma {:induction false} GlobPrefixLiteral(p: string, s: string)
    requires '*' !in p
    ensures GlobPrefix(p, s) <==> p <= s
    decreases |p|
  {
    if |p| > 0 && |s| > 0 {
      assert p[0] in p;
      GlobPrefixLiteral(p[1..], s[1..]);
      if p <= s {
        assert p[1..] <= s[1..];
      }
      if GlobPrefix(p, s) {
        assert p == [p[0]] + p[1..] && s == [s[0]] + s[1..];
      }
    }
  }

  /** Without a `*`, the wildcard search is a plain substring test. */
  lemma {:induction false} GlobSearchLiteral(p: string, s: string)
    requires '*' !in p
    ensures GlobSearch(p, s) <==> Contains(s, p)
    decreases |s|
  {
    GlobPrefixLiteral(p, s);
    assert s[0..] == s;
    if |s| > 0 {
      GlobSearchLiteral(p, s[1..]);
      if Contains(s[1..], p) {
        var i :| 0 <= i <= |s[1..]| && p <= s[1..][i..];
        assert s[1..][i..] == s[i + 1..];
      }
      if Contains(s, p) && !(p <= s) {
        var i :| 0 <= i <= |s| && p <= s[i..];
        assert i > 0;
        assert s[1..][i - 1..] == s[i..];
      }
    } else if Contains(s, p) {
      var i :| 0 <= i <= |s| && p <= s[i..];
      assert s[i..] == s;
    }
  }

  /** Every `*` may match nothing: the pattern with its stars deleted, found as a prefix, is a match. */
  lemma {:induction false} GlobPrefixStarsEmpty(p: string, s: string)
    requires RemoveChar(p, '*') <= s
    ensures GlobPrefix(p, s)
    decreases |p|
  {
    if |p| > 0 {
      if p[0] == '*' {
        GlobPrefixStarsEmpty(p[1..], s);
      } else {
        assert RemoveChar(p, '*') == [p[0]] + RemoveChar(p[1..], '*');
        GlobPrefixStarsEmpty(p[1..], s[1..]);
      }
    }
  }

  lemma {:induction false} GlobSearchAt(p: string, s: string, i: nat)
    requires i <= |s| && GlobPrefix(p, s[i..])
    ensures GlobSearch(p, s)
    decreases i
  {
    if i == 0 {
      assert s[i..] == s;
    } else {
      assert s[1..][i - 1..] == s[i..];
      GlobSearchAt(p, s[1..], i - 1);
    }
  }

  /** A term whose text without its stars occurs in the text, ignoring case, matches. */
  lemma MatchTermStarsEmpty(term: string, text: string, i: nat)
    requires |term| > 0 && i <= |text|
    requires RemoveChar(LowerStr(term), '*') <= LowerStr(text)[i..]
    ensures MatchTerm(term, text)
  {
    var needle := LowerStr(term);
    var hay := LowerStr(text);
    if '*' in term {
      GlobPrefixStarsEmpty(needle, hay[i..]);
      GlobSearchAt(needle, hay, i);
    } else {
      assert forall k :: 0 <= k < |term| ==> needle[k] != '*';
      assert RemoveChar(needle, '*') == needle;
    }
  }

  lemma LowerUpper(s: string)
    ensures LowerStr(UpperStr(s)) == LowerStr(s)
  {
    assert forall k :: 0 <= k < |s| ==> Lower(Upper(s[k])) == Lower(s[k]);
  }

  /** Matching ignores the case of the term and of the text. */
  lemma MatchTermIgnoresCase(term: string, text: string)
    ensures MatchTerm(UpperStr(term), text) == MatchTerm(term, text)
    ensures MatchTerm(term, UpperStr(text)) == MatchTerm(term, text)
  {
    LowerUpper(term);
    LowerUpper(text);
    assert '*' in UpperStr(term) <==> '*' in term by {
      assert forall k :: 0 <= k < |term| ==> (UpperStr(term)[k] == '*' <==> term[k] == '*');
    }
  }

  // ---------------------------------------------------------------------
  // Properties of the evaluator
  // ---------------------------------------------------------------------

  /** Every term outside a scope names its own field. */
  predicate FullyFielded(n: Node)
  {
    match n
    case Term(f, _) => f.Some?
    case And(l, r) => FullyFielded(l) && FullyFielded(r)
    case Or(l, r) => FullyFielded(l) && FullyFielded(r)
    case Not(m) => FullyFielded(m)
    case Scoped(_, _) => true
  }

  /** A query whose every term has a field, or sits in a scope, does not depend on the default field. */
  lemma {:induction false} EvalIgnoresDefault(n: Node, title: string, abstractText: string, d1: Option<string>, d2: Option<string>)
    requires FullyFielded(n)
    ensures Eval(n, title, abstractText, d1) == Eval(n, title, abstractText, d2)
  {
    match n
    case Term(_, _) =>
    case And(l, r) =>
      EvalIgnoresDefault(l, title, abstractText, d1, d2);
      EvalIgnoresDefault(r, title, abstractText, d1, d2);
    case Or(l, r) =>
      EvalIgnoresDefault(l, title, abstractText, d1, d2);
      EvalIgnoresDefault(r, title, abstractText, d1, d2);
    case Not(m) =>
      EvalIgnoresDefault(m, title, abstractText, d1, d2);
    case Scoped(_, _) =>
  }

  /** Inside a scope, a term's own field wins over the scope's field. */
  lemma ScopeYieldsToExplicitFields(f: string, n: Node, title: string, abstractText: string, d: Option<string>)
    requires FullyFielded(n)
    ensures Eval(Scoped(f, n), title, abstractText, d) == Eval(n, title, abstractText, d)
  {
    EvalIgnoresDefault(n, title, abstractText, Some(f), d);
  }

  /** The field `any` and no field search the same text. */
  lemma {:induction false} EvalAnyIsNoField(n: Node, title: string, abstractText: string)
    ensures Eval(n, title, abstractText, Some("any")) == Eval(n, title, abstractText, None)
  {
    match n
    case Term(_, _) =>
    case And(l, r) =>
      EvalAnyIsNoField(l, title, abstractText);
      EvalAnyIsNoField(r, title, abstractText);
    case Or(l, r) =>
      EvalAnyIsNoField(l, title, abstractText);
      EvalAnyIsNoField(r, title, abstractText);
    case Not(m) =>
      EvalAnyIsNoField(m, title, abstractText);
    case Scoped(_, _) =>
  }
}
