/** Quoting SQL literals and identifiers, and reading them back. */
module Quoting {
  import opened Options

  /** str::replace with a character pattern */
  function Replace(s: string, c: char, with: string): string {
    if s == "" then "" else (if s[0] == c then with else [s[0]]) + Replace(s[1..], c, with)
  }

  lemma {:induction false} ReplaceAppend(a: string, b: string, c: char, with: string)
    ensures Replace(a + b, c, with) == Replace(a, c, with) + Replace(b, c, with)
  {
    if a == "" {
      assert a + b == b;
    } else {
      assert (a + b)[1..] == a[1..] + b;
      ReplaceAppend(a[1..], b, c, with);
    }
  }

  lemma {:induction false} ReplaceAbsent(s: string, c: char, with: string)
    requires c !in s
    ensures Replace(s, c, with) == s
  {
    if s != "" {
      ReplaceAbsent(s[1..], c, with);
    }
  }

  // ---------- Identifiers ----------

  function PgQuote(s: string): string {
    "\"" + Replace(s, '"', "\"\"") + "\""
  }

  /** Reads the rest of a quoted identifier: its name and the text after the closing quote. */
  function ReadIdentBody(t: string): Option<(string, string)> {
    if t == "" then None
    else if t[0] == '"' then
      if |t| > 1 && t[1] == '"' then Prepend('"', ReadIdentBody(t[2..])) else Some(("", t[1..]))
    else Prepend(t[0], ReadIdentBody(t[1..]))
  }

  function Prepend(c: char, r: Option<(string, string)>): Option<(string, string)> {
    if r.None? then None else Some(([c] + r.value.0, r.value.1))
  }

  function ReadIdent(t: string): Option<(string, string)> {
    if t != "" && t[0] == '"' then ReadIdentBody(t[1..]) else None
  }

  ghost predicate NoQuoteFirst(t: string, q: char) {
    t == "" || t[0] != q
  }

  lemma {:induction false} IdentBodyRoundTrip(s: string, tail: string)
    requires NoQuoteFirst(tail, '"')
    ensures ReadIdentBody(Replace(s, '"', "\"\"") + "\"" + tail) == Some((s, tail))
  {
    var text := Replace(s, '"', "\"\"") + "\"" + tail;
    if s == "" {
      assert text[1..] == tail;
    } else {
      IdentBodyRoundTrip(s[1..], tail);
      var rest := Replace(s[1..], '"', "\"\"") + "\"" + tail;
      assert s == [s[0]] + s[1..];
      if s[0] == '"' {
        assert text == "\"\"" + rest;
        assert text[2..] == rest;
      } else {
        assert text == [s[0]] + rest;
        assert text[1..] == rest;
      }
    }
  }

  /** Every identifier is read back, whatever characters it contains. */
  lemma IdentRoundTrip(s: string, tail: string)
    requires NoQuoteFirst(tail, '"')
    ensures ReadIdent(PgQuote(s) + tail) == Some((s, tail))
  {
    IdentBodyRoundTrip(s, tail);
    assert (PgQuote(s) + tail)[1..] == Replace(s, '"', "\"\"") + "\"" + tail;
  }

  lemma PgQuoteInjective(a: string, b: string)
    requires PgQuote(a) == PgQuote(b)
    ensures a == b
  {
    IdentRoundTrip(a, "");
    IdentRoundTrip(b, "");
    assert PgQuote(a) + "" == PgQuote(b) + "";
  }

  lemma {:induction false} ReplaceLonger(s: string, c: char)
    ensures |Replace(s, c, [c, c])| >= |s|
  {
    if s != "" {
      ReplaceLonger(s[1..], c);
    }
  }

  // ---------- Literals ----------

  function DoubledChar(c: char): string {
    if c == '\'' || c == '\\' then [c, c] else [c]
  }

  /** Both characters that literals escape, doubled. */
  function Doubled(s: string): string {
    if s == "" then "" else DoubledChar(s[0]) + Doubled(s[1..])
  }

  function Escaped(s: string): string {
    Replace(Replace(s, '\'', "''"), '\\', "\\\\")
  }

  lemma {:induction false} EscapedIsDoubled(s: string)
    ensures Escaped(s) == Doubled(s)
  {
    if s != "" {
      EscapedIsDoubled(s[1..]);
      var head := if s[0] == '\'' then "''" else [s[0]];
      ReplaceAppend(head, Replace(s[1..], '\'', "''"), '\\', "\\\\");
      assert Replace(head, '\\', "\\\\") == DoubledChar(s[0]) by {
        if s[0] == '\'' {
          ReplaceAbsent("''", '\\', "\\\\");
        } else {
          assert [s[0]][1..] == "";
        }
      }
    }
  }

  function EscapeLiteral(s: string): string {
    var res := Escaped(s);
    if '\\' in res then "E'" + res + "'" else "'" + res + "'"
  }

  /** What a backslash escape stands for in an E'' literal; hexadecimal, octal and Unicode escapes are not
      read here. */
  function Unescape(c: char): Option<char> {
    match c
    case 'b' => Some(8 as char)
    case 'f' => Some(12 as char)
    case 'n' => Some('\n')
    case 'r' => Some('\r')
    case 't' => Some('\t')
    case _ => if c in "01234567xuU" then None else Some(c)
  }

  /** Reads the rest of a literal: its value and the text after the closing quote. */
  function ReadLiteralBody(t: string, escapes: bool): Option<(string, string)> {
    if t == "" then None
    else if t[0] == '\'' then
      if |t| > 1 && t[1] == '\'' then Prepend('\'', ReadLiteralBody(t[2..], escapes)) else Some(("", t[1..]))
    else if t[0] == '\\' && escapes then
      if |t| == 1 || Unescape(t[1]).None? then None
      else Prepend(Unescape(t[1]).value, ReadLiteralBody(t[2..], escapes))
    else Prepend(t[0], ReadLiteralBody(t[1..], escapes))
  }

  function ReadLiteral(t: string): Option<(string, string)> {
    if t == "" then None
    else if t[0] == '\'' then ReadLiteralBody(t[1..], false)
    else if |t| > 1 && t[0] == 'E' && t[1] == '\'' then ReadLiteralBody(t[2..], true)
    else None
  }

  lemma ReadLiteralStep(c: char, rest: string, escapes: bool)
    requires escapes || c != '\\'
    ensures ReadLiteralBody(DoubledChar(c) + rest, escapes) == Prepend(c, ReadLiteralBody(rest, escapes))
  {
    assert (DoubledChar(c) + rest)[|DoubledChar(c)|..] == rest;
  }

  lemma ReadLiteralEnd(tail: string, escapes: bool)
    requires NoQuoteFirst(tail, '\'')
    ensures ReadLiteralBody("'" + tail, escapes) == Some(("", tail))
  {
    assert ("'" + tail)[1..] == tail;
  }

  lemma {:induction false} LiteralBodyRoundTrip(s: string, tail: string, escapes: bool)
    requires NoQuoteFirst(tail, '\'') && (escapes || '\\' !in s)
    ensures ReadLiteralBody(Doubled(s) + "'" + tail, escapes) == Some((s, tail))
  {
    hide ReadLiteralBody, DoubledChar;
    if s == "" {
      ReadLiteralEnd(tail, escapes);
      assert Doubled(s) + "'" + tail == "'" + tail;
    } else {
      var rest := Doubled(s[1..]) + "'" + tail;
      LiteralBodyRoundTrip(s[1..], tail, escapes);
      ReadLiteralStep(s[0], rest, escapes);
      assert Doubled(s) + "'" + tail == DoubledChar(s[0]) + rest;
      assert s == [s[0]] + s[1..];
    }
  }

  lemma {:induction false} BackslashKept(s: string)
    ensures '\\' in Doubled(s) <==> '\\' in s
  {
    if s != "" {
      BackslashKept(s[1..]);
      assert s == [s[0]] + s[1..];
    }
  }

  /** The literal is an E'' literal exactly when the string has a backslash; quotes and backslashes are doubled and
      nothing else changes. */
  lemma LiteralForm(s: string)
    ensures EscapeLiteral(s) == (if '\\' in s then "E'" else "'") + Doubled(s) + "'"
  {
    EscapedIsDoubled(s);
    BackslashKept(s);
  }

  /** Every string is read back from its literal, plain or E'', and the literal ends where it should. */
  lemma LiteralRoundTrip(s: string, tail: string)
    requires NoQuoteFirst(tail, '\'')
    ensures ReadLiteral(EscapeLiteral(s) + tail) == Some((s, tail))
  {
    hide ReadLiteralBody, Doubled, Replace, Escaped;
    EscapedIsDoubled(s);
    BackslashKept(s);
    var text := EscapeLiteral(s) + tail;
    if '\\' in s {
      LiteralBodyRoundTrip(s, tail, true);
      assert text[2..] == Doubled(s) + "'" + tail;
    } else {
      LiteralBodyRoundTrip(s, tail, false);
      assert text[1..] == Doubled(s) + "'" + tail;
    }
  }
}
