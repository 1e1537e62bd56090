/**
 * BibTeX text as the fetch scripts write it: the shared `escape_bibtex`
 * replacement loop and the `@type{key,` / `  field = {value},` / `}` layout
 * used by the Springer, Semantic Scholar and arXiv serialisers.
 */
module BibWrite {
  import opened Text
  import opened Perm

  /** The keys of the replacement table, in the dict's iteration order. */
  const Keys: string := "\\{}%&_#$~^"

  /** The replacement for Keys[k]. */
  const Reps: seq<string> := ["\\\\", "\\{", "\\}", "\\%", "\\&", "\\_", "\\#", "\\$", "\\textasciitilde{}", "\\textasciicircum{}"]

  /** What one source character becomes once the whole table has been applied. */
  function EscapeChar(c: char): (r: string)
    ensures |r| > 0
  {
    if c == '\\' then "\\\\"
    else if c == '{' then "\\{"
    else if c == '}' then "\\}"
    else if c == '%' then "\\%"
    else if c == '&' then "\\&"
    else if c == '_' then "\\_"
    else if c == '#' then "\\#"
    else if c == '$' then "\\$"
    else if c == '~' then "\\textasciitilde{}"
    else if c == '^' then "\\textasciicircum{}"
    else [c]
  }

  /** The escaped text: every character replaced by its escape. */
  function Escaped(s: string): (r: string)
    ensures |r| >= |s|
  {
    if |s| == 0 then "" else EscapeChar(s[0]) + Escaped(s[1..])
  }

  /** What a character has become after the first k replacements of the table. */
  function StageChar(c: char, k: nat): string
  {
    match IndexOf(Keys, c)
    case Some(j) => if j < k && j < |Reps| then Reps[j] else [c]
    case None => [c]
  }

  /** The text after the first k replacements. */
  function Stage(s: string, k: nat): string
  {
    if |s| == 0 then "" else StageChar(s[0], k) + Stage(s[1..], k)
  }

  /** No replacement brings in a key that a later replacement would rewrite again. */
  lemma LaterKeysAbsent(j: nat, k: nat)
    requires j < k < |Keys|
    ensures Keys[k] !in Reps[j]
  {
    if j == 8 {
      assert Reps[8] == "\\textasciitilde{}";
    }
  }

  /** Python str.replace with a one-character pattern distributes over concatenation. */
  lemma {:induction false} ReplaceConcat(a: string, b: string, x: char, r: string)
    ensures Replace(a + b, [x], r) == Replace(a, [x], r) + Replace(b, [x], r)
    decreases |a|
  {
    if |a| > 0 {
      assert |[x]| == 1;
      assert (a + b)[1..] == a[1..] + b;
      assert (a + b)[..1] == a[..1];
      ReplaceConcat(a[1..], b, x, r);
      if a[..1] == [x] {
        calc {
          Replace(a + b, [x], r);
          r + Replace(a[1..] + b, [x], r);
          r + Replace(a[1..], [x], r) + Replace(b, [x], r);
        }
      } else {
        calc {
          Replace(a + b, [x], r);
          [a[0]] + Replace(a[1..] + b, [x], r);
          [a[0]] + Replace(a[1..], [x], r) + Replace(b, [x], r);
        }
      }
    } else {
      assert a + b == b;
    }
  }

  lemma StageCharStep(c: char, k: nat)
    requires k < |Keys|
    ensures Replace(StageChar(c, k), [Keys[k]], Reps[k]) == StageChar(c, k + 1)
  {
    var x := Keys[k];
    match IndexOf(Keys, c)
    case Some(j) =>
      if j < k {
        LaterKeysAbsent(j, k);
        ReplaceAbsent(Reps[j], [x], Reps[k]);
      } else if j == k {
        assert [c][..1] == [x];
        assert [c][1..] == "";
      } else {
        assert Keys[..j][k] == Keys[k];
        assert [c][..1] == [c] && [c][0] != [x][0];
        assert [c][1..] == "";
      }
    case None =>
      assert [c][..1] == [c] && [c][0] != [x][0];
      assert [c][1..] == "";
  }

  lemma {:induction false} StageStep(s: string, k: nat)
    requires k < |Keys|
    ensures Replace(Stage(s, k), [Keys[k]], Reps[k]) == Stage(s, k + 1)
    decreases |s|
  {
    if |s| > 0 {
      ReplaceConcat(StageChar(s[0], k), Stage(s[1..], k), Keys[k], Reps[k]);
      StageCharStep(s[0], k);
      StageStep(s[1..], k);
    }
  }

  lemma {:induction false} StageZero(s: string)
    ensures Stage(s, 0) == s
    decreases |s|
  {
    if |s| > 0 {
      StageZero(s[1..]);
      assert s == [s[0]] + s[1..];
    }
  }

  lemma StageCharKey(c: char, k: nat)
    requires k < |Keys| && Keys[k] == c && c !in Keys[..k]
    ensures StageChar(c, |Keys|) == Reps[k]
  {
    IndexOfAt(Keys, c, k);
  }

  lemma StageCharFull(c: char)
    ensures StageChar(c, |Keys|) == EscapeChar(c)
  {
    if c == '\\' { StageCharKey(c, 0); }
    else if c == '{' { StageCharKey(c, 1); }
    else if c == '}' { StageCharKey(c, 2); }
    else if c == '%' { StageCharKey(c, 3); }
    else if c == '&' { StageCharKey(c, 4); }
    else if c == '_' { StageCharKey(c, 5); }
    else if c == '#' { StageCharKey(c, 6); }
    else if c == '$' { StageCharKey(c, 7); }
    else if c == '~' { StageCharKey(c, 8); }
    else if c == '^' { StageCharKey(c, 9); }
    else { assert c !in Keys; }
  }

  lemma {:induction false} StageFull(s: string)
    ensures Stage(s, |Keys|) == Escaped(s)
    decreases |s|
  {
    if |s| > 0 {
      StageCharFull(s[0]);
      StageFull(s[1..]);
    }
  }

  /**
   * escape_bibtex: the table's replacements applied one after another to
   * the whole text, backslash first, which amounts to escaping every
   * character on its own.
   */
  method EscapeBibtex(value: string) returns (escaped: string)
    ensures escaped == Escaped(value)
  {
    escaped := value;
    StageZero(value);
    for k := 0 to |Keys|
      invariant escaped == Stage(value, k)
    {
      StageStep(value, k);
      escaped := Replace(escaped, [Keys[k]], Reps[k]);
    }
    StageFull(value);
  }

  /** The characters a backslash escapes by prefixing. */
  const Prefixed: set<char> := {'\\', '{', '}', '%', '&', '_', '#', '$'}

  /** Reads escaped text back: the inverse of Escaped. */
  function Unescape(e: string): string
    decreases |e|
  {
    if |e| == 0 then ""
    else if |e| >= 2 && e[0] == '\\' && e[1] in Prefixed then [e[1]] + Unescape(e[2..])
    else if StartsWith(e, "\\textasciitilde{}") then "~" + Unescape(e[17..])
    else if StartsWith(e, "\\textasciicircum{}") then "^" + Unescape(e[18..])
    else [e[0]] + Unescape(e[1..])
  }

  lemma UnescapePrefixed(c: char, rest: string)
    requires c in Prefixed
    ensures Unescape(EscapeChar(c) + rest) == [c] + Unescape(rest)
  {
    var e := EscapeChar(c) + rest;
    assert e[..2] == ['\\', c];
    assert e[2..] == rest;
  }

  lemma UnescapeTilde(rest: string)
    ensures Unescape(EscapeChar('~') + rest) == "~" + Unescape(rest)
  {
    var e := "\\textasciitilde{}" + rest;
    assert e[1] == 't' && 't' !in Prefixed;
    assert StartsWith(e, "\\textasciitilde{}");
    assert e[17..] == rest;
  }

  lemma UnescapeCaret(rest: string)
    ensures Unescape(EscapeChar('^') + rest) == "^" + Unescape(rest)
  {
    var e := "\\textasciicircum{}" + rest;
    assert e[1] == 't' && 't' !in Prefixed;
    assert !StartsWith(e, "\\textasciitilde{}") by {
      assert e[10] == 'c';
    }
    assert StartsWith(e, "\\textasciicircum{}");
    assert e[18..] == rest;
  }

  lemma UnescapePlain(c: char, rest: string)
    requires c !in Keys
    ensures Unescape(EscapeChar(c) + rest) == [c] + Unescape(rest)
  {
    var e := EscapeChar(c) + rest;
    assert EscapeChar(c) == [c];
    assert e[0] == c && e[1..] == rest;
  }

  lemma UnescapeChar(c: char, rest: string)
    ensures Unescape(EscapeChar(c) + rest) == [c] + Unescape(rest)
  {
    if c in Prefixed {
      UnescapePrefixed(c, rest);
    } else if c == '~' {
      UnescapeTilde(rest);
    } else if c == '^' {
      UnescapeCaret(rest);
    } else {
      UnescapePlain(c, rest);
    }
  }

  /** Escaping loses nothing: the escaped text reads back as the original. */
  lemma {:induction false} UnescapeEscaped(s: string)
    ensures Unescape(Escaped(s)) == s
    decreases |s|
  {
    if |s| > 0 {
      UnescapeChar(s[0], Escaped(s[1..]));
      UnescapeEscaped(s[1..]);
      assert s == [s[0]] + s[1..];
    }
  }

  /** Text without special characters is written as it is. */
  lemma {:induction false} EscapedPlain(s: string)
    requires forall i :: 0 <= i < |s| ==> s[i] !in Keys
    ensures Escaped(s) == s
    decreases |s|
  {
    if |s| > 0 {
      assert s[0] !in Keys;
      EscapedPlain(s[1..]);
      assert s == [s[0]] + s[1..];
    }
  }

  // ------------------------------------------------------------------
  // entry layout
  // ------------------------------------------------------------------

  /** A field name with its value, in the order the serialiser lists them. */
  type Field = (string, string)

  /** `  name = {escaped value},` */
  function FieldLine(f: Field): string
  {
    "  " + f.0 + " = {" + Escaped(f.1) + "},"
  }

  /** The fields whose value is non-empty, in order. */
  function NonEmpty(fields: seq<Field>): (r: seq<Field>)
    ensures |r| <= |fields|
  {
    if |fields| == 0 then []
    else NonEmpty(fields[..|fields| - 1]) + (if fields[|fields| - 1].1 != "" then [fields[|fields| - 1]] else [])
  }

  /** The fields written are exactly the listed fields with a value. */
  lemma {:induction false} NonEmptyMembers(fields: seq<Field>, f: Field)
    ensures f in NonEmpty(fields) <==> f in fields && f.1 != ""
    decreases |fields|
  {
    if |fields| > 0 {
      var n := |fields| - 1;
      NonEmptyMembers(fields[..n], f);
      assert fields == fields[..n] + [fields[n]];
    }
  }

  function Header(entryType: string, key: string): string
  {
    "@" + entryType + "{" + key + ","
  }

  /** The lines of one entry: the header, one line per non-empty field, then `}`. */
  function Lines(entryType: string, key: string, fields: seq<Field>): seq<string>
  {
    [Header(entryType, key)] + Map(FieldLine, NonEmpty(fields)) + ["}"]
  }

  /** The shape of a rendered entry, and every written value reads back unchanged. */
  lemma LinesShape(entryType: string, key: string, fields: seq<Field>)
    ensures var ls := Lines(entryType, key, fields);
      && |ls| == |NonEmpty(fields)| + 2
      && ls[0] == "@" + entryType + "{" + key + ","
      && ls[|ls| - 1] == "}"
      && forall i :: 0 <= i < |NonEmpty(fields)| ==>
           ls[i + 1] == "  " + NonEmpty(fields)[i].0 + " = {" + Escaped(NonEmpty(fields)[i].1) + "},"
           && NonEmpty(fields)[i] in fields
           && NonEmpty(fields)[i].1 != ""
           && Unescape(Escaped(NonEmpty(fields)[i].1)) == NonEmpty(fields)[i].1
  {
    var ne := NonEmpty(fields);
    forall i | 0 <= i < |ne|
      ensures ne[i] in fields && ne[i].1 != "" && Unescape(Escaped(ne[i].1)) == ne[i].1
    {
      NonEmptyMembers(fields, ne[i]);
      UnescapeEscaped(ne[i].1);
    }
  }

  /** The entry text: its lines joined by newlines. */
  function Render(entryType: string, key: string, fields: seq<Field>): string
  {
    Join(Lines(entryType, key, fields), "\n")
  }

  /** The rendering loop shared by render_entry, paper_to_bibtex and entry_to_bibtex. */
  method RenderEntry(entryType: string, key: string, fields: seq<Field>) returns (text: string)
    ensures text == Render(entryType, key, fields)
  {
    var lines := [Header(entryType, key)];
    for i := 0 to |fields|
      invariant lines == [Header(entryType, key)] + Map(FieldLine, NonEmpty(fields[..i]))
    {
      assert fields[..i + 1][..i] == fields[..i];
      if fields[i].1 != "" {
        var escaped := EscapeBibtex(fields[i].1);
        MapConcat(FieldLine, NonEmpty(fields[..i]), [fields[i]]);
        lines := lines + ["  " + fields[i].0 + " = {" + escaped + "},"];
      }
    }
    PrefixAll(fields);
    lines := lines + ["}"];
    text := Join(lines, "\n");
  }
}
