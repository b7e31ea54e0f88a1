/** Writing postgresql.conf values and files, and reading them back. */
module ConfFile {
  import opened Options
  import opened Quoting

  // ---------- Words that need no quotes ----------

  predicate Letter(c: char) { 'a' <= c <= 'z' || 'A' <= c <= 'Z' }

  predicate Digit(c: char) { '0' <= c <= '9' }

  predicate Letters(s: string) { forall c :: c in s ==> Letter(c) }

  /** Digits, then letters. */
  predicate Number(s: string) {
    s == "" || (Digit(s[0]) && Number(s[1..])) || Letters(s)
  }

  predicate Signed(s: string) {
    var digits := if s != "" && (s[0] == '-' || s[0] == '+') then s[1..] else s;
    digits != "" && Digit(digits[0]) && Number(digits[1..])
  }

  /** What EscapeStr leaves unquoted: a number with an optional unit, or an alphanumeric word. */
  predicate Unquoted(s: string) {
    Signed(s) || (s != "" && Letter(s[0]) && forall c :: c in s ==> Letter(c) || Digit(c))
  }

  /** What the server's scanner reads as one unquoted value. */
  predicate ServerWord(s: string) {
    || Signed(s)
    || (s != "" && (Letter(s[0]) || s[0] == '_')
        && forall c :: c in s ==> Letter(c) || Digit(c) || c in "_-.:/")
  }

  // ---------- Quoted values ----------

  function EscapeConfValue(s: string): string {
    "'" + Escaped(s) + "'"
  }

  /** The quoted branch of EscapeStr, one character at a time. */
  function Protected(s: string): string {
    if s == "" then "" else Protect(s[0]) + Protected(s[1..])
  }

  function Protect(c: char): string {
    if c == '\\' then "\\\\" else if c == '\n' then "\\n" else if c == '\'' then "''" else [c]
  }

  function Replaced(s: string): string {
    Replace(Replace(Replace(s, '\\', "\\\\"), '\n', "\\n"), '\'', "''")
  }

  function EscapeStr(s: string): string {
    if Unquoted(s) then s else "'" + Replaced(s) + "'"
  }

  lemma ReplaceChar(c: char, d: char, with: string)
    ensures Replace([c], d, with) == if c == d then with else [c]
  {
    assert [c][1..] == "";
  }

  lemma ReplacedChar(c: char)
    ensures Replaced([c]) == Protect(c)
  {
    ReplaceChar(c, '\\', "\\\\");
    ReplaceChar(c, '\n', "\\n");
    ReplaceChar(c, '\'', "''");
    ReplaceAbsent("\\\\", '\n', "\\n");
    ReplaceAbsent("\\\\", '\'', "''");
    ReplaceAbsent("\\n", '\'', "''");
  }

  lemma {:induction false} ReplacedIsProtected(s: string)
    ensures Replaced(s) == Protected(s)
  {
    if s != "" {
      ReplacedIsProtected(s[1..]);
      assert s == [s[0]] + s[1..];
      ReplacedChar(s[0]);
      var c, t := [s[0]], s[1..];
      ReplaceAppend(c, t, '\\', "\\\\");
      var c1, t1 := Replace(c, '\\', "\\\\"), Replace(t, '\\', "\\\\");
      ReplaceAppend(c1, t1, '\n', "\\n");
      ReplaceAppend(Replace(c1, '\n', "\\n"), Replace(t1, '\n', "\\n"), '\'', "''");
    }
  }

  /** What the server takes a backslash and a character for; octal escapes are not read here. */
  function ServerUnescape(c: char): Option<char> {
    match c
    case 'b' => Some(8 as char)
    case 'f' => Some(12 as char)
    case 'n' => Some('\n')
    case 'r' => Some('\r')
    case 't' => Some('\t')
    case _ => if '0' <= c <= '7' || c == '\n' then None else Some(c)
  }

  /** The rest of a quoted value and the text after its closing quote; a value does not span lines. */
  function ReadQuoted(t: string): Option<(string, string)> {
    if t == "" || t[0] == '\n' then None
    else if t[0] == '\'' then
      if |t| > 1 && t[1] == '\'' then Prepend('\'', ReadQuoted(t[2..])) else Some(("", t[1..]))
    else if t[0] == '\\' then
      if |t| == 1 || ServerUnescape(t[1]).None? then None
      else Prepend(ServerUnescape(t[1]).value, ReadQuoted(t[2..]))
    else Prepend(t[0], ReadQuoted(t[1..]))
  }

  /** One character written as `w` is read as `c`. */
  lemma ReadQuotedStep(c: char, w: string, rest: string)
    requires w == Protect(c) || (c != '\n' && w == DoubledChar(c))
    ensures ReadQuoted(w + rest) == Prepend(c, ReadQuoted(rest))
  {
    assert (w + rest)[|w|..] == rest;
  }

  lemma ReadQuotedEnd(tail: string)
    requires NoQuoteFirst(tail, '\'')
    ensures ReadQuoted("'" + tail) == Some(("", tail))
  {
    assert ("'" + tail)[1..] == tail;
  }

  lemma {:induction false} ProtectedRoundTrip(s: string, tail: string)
    requires NoQuoteFirst(tail, '\'')
    ensures ReadQuoted(Protected(s) + "'" + tail) == Some((s, tail))
  {
    hide ReadQuoted, Protect;
    if s == "" {
      ReadQuotedEnd(tail);
      assert Protected(s) + "'" + tail == "'" + tail;
    } else {
      var rest := Protected(s[1..]) + "'" + tail;
      ProtectedRoundTrip(s[1..], tail);
      ReadQuotedStep(s[0], Protect(s[0]), rest);
      assert Protected(s) + "'" + tail == Protect(s[0]) + rest;
      assert s == [s[0]] + s[1..];
    }
  }

  lemma {:induction false} DoubledRoundTrip(s: string, tail: string)
    requires NoQuoteFirst(tail, '\'')
    ensures ReadQuoted(Doubled(s) + "'" + tail) == if '\n' in s then None else Some((s, tail))
  {
    if s == "" {
      ReadQuotedEnd(tail);
      assert Doubled(s) + "'" + tail == "'" + tail;
    } else {
      var rest := Doubled(s[1..]) + "'" + tail;
      DoubledRoundTrip(s[1..], tail);
      assert Doubled(s) + "'" + tail == DoubledChar(s[0]) + rest;
      assert s == [s[0]] + s[1..];
      if s[0] != '\n' {
        ReadQuotedStep(s[0], DoubledChar(s[0]), rest);
      }
    }
  }

  lemma {:induction false} DoubledIsProtected(s: string)
    requires '\n' !in s
    ensures Doubled(s) == Protected(s)
  {
    if s != "" {
      DoubledIsProtected(s[1..]);
    }
  }

  /** A value of the file: a quoted string, or the word up to the end of the line. */
  function ReadValue(t: string): Option<(string, string)> {
    if t != "" && t[0] == '\'' then ReadQuoted(t[1..])
    else
      var word := UpTo(t, '\n');
      if ServerWord(word) then Some((word, t[|word|..])) else None
  }

  function UpTo(t: string, stop: char): (w: string)
    ensures |w| <= |t| && w == t[..|w|] && stop !in w
    ensures |w| < |t| ==> t[|w|] == stop
  {
    if t == "" || t[0] == stop then "" else [t[0]] + UpTo(t[1..], stop)
  }

  lemma {:induction false} UpToFirst(w: string, stop: char, rest: string)
    requires stop !in w
    ensures UpTo(w + [stop] + rest, stop) == w
  {
    if w != "" {
      UpToFirst(w[1..], stop, rest);
      assert (w + [stop] + rest)[1..] == w[1..] + [stop] + rest;
      assert w == [w[0]] + w[1..];
    }
  }

  lemma {:induction false} NumberChars(s: string)
    requires Number(s)
    ensures forall c :: c in s ==> Letter(c) || Digit(c)
  {
    if s != "" && Digit(s[0]) && Number(s[1..]) {
      NumberChars(s[1..]);
      assert s == [s[0]] + s[1..];
    }
  }

  lemma UnquotedOneLine(s: string)
    requires Unquoted(s)
    ensures '\n' !in s && s != "" && s[0] != '\''
  {
    if Signed(s) {
      var digits := if s[0] == '-' || s[0] == '+' then s[1..] else s;
      NumberChars(digits[1..]);
      assert digits == [digits[0]] + digits[1..];
      assert s == digits || s == [s[0]] + digits;
    }
  }

  /** Every value is read back from what EscapeStr writes, whatever characters it contains. */
  lemma ValueRoundTrip(s: string, tail: string)
    ensures ReadValue(EscapeStr(s) + ("\n" + tail)) == Some((s, "\n" + tail))
  {
    hide Unquoted, ReadQuoted, UpTo, Replaced, Protected;
    if Unquoted(s) {
      UnquotedOneLine(s);
      UnquotedIsServerWord(s);
      UpToFirst(s, '\n', tail);
      assert s + ("\n" + tail) == s + ['\n'] + tail;
      assert (s + ("\n" + tail))[|s|..] == "\n" + tail;
    } else {
      ReplacedIsProtected(s);
      ProtectedRoundTrip(s, "\n" + tail);
      assert (EscapeStr(s) + ("\n" + tail))[1..] == Protected(s) + "'" + ("\n" + tail);
    }
  }

  lemma UnquotedIsServerWord(s: string)
    requires Unquoted(s)
    ensures ServerWord(s)
  {
  }

  /** EscapeConfValue is read back exactly when the value has no newline. */
  lemma ConfValueRoundTrip(s: string, tail: string)
    ensures ReadValue(EscapeConfValue(s) + ("\n" + tail)) == Some((s, "\n" + tail)) <==> '\n' !in s
  {
    hide ReadQuoted, Doubled, Escaped;
    EscapedIsDoubled(s);
    DoubledRoundTrip(s, "\n" + tail);
    assert (EscapeConfValue(s) + ("\n" + tail))[1..] == Doubled(s) + "'" + ("\n" + tail);
  }

  /** An optional sign, digits from `a` up to `b`, then letters. */
  ghost predicate NumberAt(s: string, a: nat, b: nat) {
    && a <= 1 && a < b <= |s| && (a == 1 ==> s[0] == '-' || s[0] == '+')
    && (forall k :: a <= k < b ==> '0' <= s[k] <= '9')
    && (forall k :: b <= k < |s| ==> 'a' <= s[k] <= 'z' || 'A' <= s[k] <= 'Z')
  }

  /** A letter, then letters and digits. */
  ghost predicate WordAt(s: string) {
    && s != "" && ('a' <= s[0] <= 'z' || 'A' <= s[0] <= 'Z')
    && forall k :: 0 <= k < |s| ==> 'a' <= s[k] <= 'z' || 'A' <= s[k] <= 'Z' || '0' <= s[k] <= '9'
  }

  lemma {:induction false} NumberIff(s: string) returns (b: nat)
    ensures b <= |s| && forall k :: 0 <= k < b ==> Digit(s[k])
    ensures Number(s) <==> forall k :: b <= k < |s| ==> Letter(s[k])
    ensures b < |s| ==> !Digit(s[b])
  {
    b := 0;
    if s != "" && Digit(s[0]) {
      var n := NumberIff(s[1..]);
      b := n + 1;
      assert forall k :: 0 <= k < |s| - 1 ==> s[1..][k] == s[k + 1];
    }
  }

  lemma SignedIff(s: string)
    ensures Signed(s) <==> exists a: nat, b: nat :: NumberAt(s, a, b)
  {
    var a := if s != "" && (s[0] == '-' || s[0] == '+') then 1 else 0;
    var digits := s[a..];
    var b := NumberIff(digits);
    if Signed(s) {
      assert NumberAt(s, a, a + b);
    }
  }

  lemma WordIff(s: string)
    ensures WordAt(s) <==> s != "" && Letter(s[0]) && forall c :: c in s ==> Letter(c) || Digit(c)
  {
    if s != "" && Letter(s[0]) && forall c :: c in s ==> Letter(c) || Digit(c) {
      forall k | 0 <= k < |s| ensures 'a' <= s[k] <= 'z' || 'A' <= s[k] <= 'Z' || '0' <= s[k] <= '9' {
        assert s[k] in s;
      }
    }
  }

  /** EscapeStr leaves a value as it is exactly when it is a number with an optional sign and unit or a word of
      letters and digits; otherwise it quotes it. */
  lemma EscapeStrForm(s: string)
    ensures EscapeStr(s) == s <==> WordAt(s) || exists a: nat, b: nat :: NumberAt(s, a, b)
    ensures EscapeStr(s) != s ==> EscapeStr(s) == "'" + Protected(s) + "'"
  {
    hide Signed, NumberAt, Protected, Replaced;
    SignedIff(s);
    ReplacedIsProtected(s);
    ProtectedLonger(s);
    WordIff(s);
    assert !Unquoted(s) ==> |EscapeStr(s)| > |s|;
  }

  lemma {:induction false} ProtectedLonger(s: string)
    ensures |Protected(s)| >= |s|
  {
    if s != "" {
      ProtectedLonger(s[1..]);
    }
  }

  lemma ConfValueForm(s: string)
    ensures EscapeConfValue(s) == "'" + Doubled(s) + "'"
  {
    EscapedIsDoubled(s);
  }

  /** The two quoting functions agree on values that need quotes and have no newline. */
  lemma QuotingsAgree(s: string)
    requires '\n' !in s
    ensures EscapeStr(s) == EscapeConfValue(s) <==> !Unquoted(s)
  {
    hide Unquoted, Replaced, Escaped, Protected, Doubled;
    EscapedIsDoubled(s);
    ReplacedIsProtected(s);
    DoubledIsProtected(s);
    if Unquoted(s) {
      UnquotedOneLine(s);
    }
  }

  // ---------- The file ----------

  datatype Entry = Setting(option: string, value: string) | Raw(line: string)

  predicate OptionName(s: string) {
    s != "" && (Letter(s[0]) || s[0] == '_') && forall c :: c in s ==> Letter(c) || Digit(c) || c in "_."
  }

  function Line(e: Entry): string {
    match e
    case Setting(option, value) => option + "=" + EscapeStr(value) + "\n"
    case Raw(line) => line
  }

  function Lines(log: seq<Entry>): (ls: seq<string>)
    ensures |ls| == |log|
  {
    seq(|log|, i requires 0 <= i < |log| => Line(log[i]))
  }

  function Concat(lines: seq<string>): string {
    if lines == [] then "" else lines[0] + Concat(lines[1..])
  }

  function Store(m: map<string, string>, e: Entry): map<string, string> {
    if e.Setting? then m[e.option := e.value] else m
  }

  /** The settings after the entries, in order. */
  function Settings(m: map<string, string>, log: seq<Entry>): map<string, string>
    decreases |log|
  {
    if log == [] then m else Settings(Store(m, log[0]), log[1..])
  }

  function ReadSetting(t: string): Option<(Entry, string)> {
    var name := UpTo(t, '=');
    if |name| == |t| || !OptionName(name) then None else
      var v := ReadValue(t[|name| + 1..]);
      if v.None? || v.value.1 == "" || v.value.1[0] != '\n' then None
      else Some((Setting(name, v.value.0), v.value.1[1..]))
  }

  lemma {:induction false} ReadQuotedShorter(t: string)
    ensures var r := ReadQuoted(t); r.Some? ==> |r.value.1| < |t|
  {
    if t != "" && t[0] == '\\' && |t| > 1 {
      ReadQuotedShorter(t[2..]);
    } else if t != "" && t[0] != '\'' {
      ReadQuotedShorter(t[1..]);
    } else if |t| > 1 {
      ReadQuotedShorter(t[2..]);
    }
  }

  /** The settings of a file, a later line overriding an earlier one. */
  function ReadFile(t: string, m: map<string, string>): Option<map<string, string>>
    decreases |t|
  {
    if t == "" then Some(m) else
      var r := ReadSetting(t);
      if r.None? then None else
        ReadSettingShorter(t);
        ReadFile(r.value.1, Store(m, r.value.0))
  }

  lemma ReadSettingShorter(t: string)
    ensures var r := ReadSetting(t); r.Some? ==> |r.value.1| < |t|
  {
    var name := UpTo(t, '=');
    if |name| < |t| {
      var v := t[|name| + 1..];
      if v != "" {
        ReadQuotedShorter(v[1..]);
      }
    }
  }

  lemma SettingRoundTrip(e: Entry, rest: string)
    requires e.Setting? && OptionName(e.option)
    ensures ReadSetting(Line(e) + rest) == Some((e, rest))
  {
    hide ReadValue, EscapeStr, UpTo;
    var t := Line(e) + rest;
    var after := EscapeStr(e.value) + ("\n" + rest);
    assert t == e.option + ['='] + after;
    UpToFirst(e.option, '=', after);
    assert t[|e.option| + 1..] == after;
    ValueRoundTrip(e.value, rest);
    assert ("\n" + rest)[1..] == rest;
  }

  /** Reading back the text of a file made of appended settings gives the same settings. */
  lemma {:induction false} NamedRoundTrip(log: seq<Entry>, m: map<string, string>)
    requires forall e :: e in log ==> e.Setting? && OptionName(e.option)
    ensures ReadFile(Concat(Lines(log)), m) == Some(Settings(m, log))
  {
    if log != [] {
      assert Lines(log)[1..] == Lines(log[1..]);
      NamedRoundTrip(log[1..], Store(m, log[0]));
      SettingRoundTrip(log[0], Concat(Lines(log[1..])));
      assert Concat(Lines(log)) == Line(log[0]) + Concat(Lines(log[1..]));
      hide ReadSetting, OptionName, Line;
      assert Concat(Lines(log)) != "" by { LineNotEmpty(log[0]); }
    }
  }

  ghost predicate Named(log: seq<Entry>) {
    forall e :: e in log && e.Setting? ==> OptionName(e.option)
  }

  /** Only option names are ever read. */
  lemma {:induction false} ReadNames(t: string, m: map<string, string>)
    requires forall n :: n in m ==> OptionName(n)
    ensures ReadFile(t, m).Some? ==> forall n :: n in ReadFile(t, m).value ==> OptionName(n)
    decreases |t|
  {
    if t != "" && ReadSetting(t).Some? {
      ReadSettingShorter(t);
      ReadNames(ReadSetting(t).value.1, Store(m, ReadSetting(t).value.0));
    }
  }

  lemma {:induction false} SettingStays(m: map<string, string>, log: seq<Entry>, option: string)
    requires option in m || exists e :: e in log && e.Setting? && e.option == option
    ensures option in Settings(m, log)
    decreases |log|
  {
    if log != [] {
      assert log == [log[0]] + log[1..];
      SettingStays(Store(m, log[0]), log[1..], option);
    }
  }

  /** The text of appended settings gives the same settings back exactly when every option is called what the
      server takes for an option name. */
  lemma FileRoundTrip(log: seq<Entry>)
    requires forall e :: e in log ==> e.Setting?
    ensures ReadFile(Concat(Lines(log)), map[]) == Some(Settings(map[], log)) <==> Named(log)
  {
    if Named(log) {
      NamedRoundTrip(log, map[]);
    } else {
      var e :| e in log && !OptionName(e.option);
      SettingStays(map[], log, e.option);
      ReadNames(Concat(Lines(log)), map[]);
    }
  }

  lemma LineNotEmpty(e: Entry)
    requires e.Setting?
    ensures Line(e) != ""
  {
  }

  lemma {:induction false} SettingsAppend(m: map<string, string>, log: seq<Entry>, e: Entry)
    ensures Settings(m, log + [e]) == Store(Settings(m, log), e)
    decreases |log|
  {
    if log == [] {
      assert [] + [e] == [e] && [e][1..] == [];
    } else {
      assert (log + [e])[1..] == log[1..] + [e];
      SettingsAppend(Store(m, log[0]), log[1..], e);
    }
  }

  ghost predicate Sets(e: Entry, option: string) {
    e.Setting? && e.option == option
  }

  /** The last append of an option wins. */
  lemma {:induction false} LastWins(log: seq<Entry>, option: string)
    ensures option !in Settings(map[], log) <==> forall i :: 0 <= i < |log| ==> !Sets(log[i], option)
    ensures option in Settings(map[], log) ==>
      exists i :: 0 <= i < |log| && log[i] == Setting(option, Settings(map[], log)[option])
               && forall j :: i < j < |log| ==> !Sets(log[j], option)
  {
    if log != [] {
      var front, last := log[..|log| - 1], log[|log| - 1];
      LastWins(front, option);
      assert log == front + [last];
      SettingsAppend(map[], front, last);
      hide Settings;
      if Sets(last, option) {
        assert log[|log| - 1] == Setting(option, Settings(map[], log)[option]);
      } else if option in Settings(map[], front) {
        var i :| 0 <= i < |front| && front[i] == Setting(option, Settings(map[], front)[option])
               && forall j :: i < j < |front| ==> !Sets(front[j], option);
        assert log[i] == front[i];
        assert forall j :: i < j < |log| ==> !Sets(log[j], option);
      }
    }
  }

  lemma {:induction false} ConcatAppend(lines: seq<string>, line: string)
    ensures Concat(lines + [line]) == Concat(lines) + line
  {
    if lines == [] {
      assert [] + [line] == [line] && [line][1..] == [];
    } else {
      assert (lines + [line])[1..] == lines[1..] + [line];
      ConcatAppend(lines[1..], line);
    }
  }

  /** An in-memory postgresql.conf: its lines and the value of each option. */
  class PostgresConf {
    var lines: seq<string>
    var hash: map<string, string>
    ghost var log: seq<Entry>

    ghost predicate Valid()
      reads this
    {
      lines == Lines(log) && hash == Settings(map[], log)
    }

    constructor ()
      ensures Valid() && log == []
    {
      lines, hash, log := [], map[], [];
    }

    method Append(option: string, value: string)
      requires Valid()
      modifies this
      ensures Valid() && log == old(log) + [Setting(option, value)]
      ensures lines == old(lines) + [option + "=" + EscapeStr(value) + "\n"] && hash == old(hash)[option := value]
    {
      SettingsAppend(map[], log, Setting(option, value));
      lines := lines + [option + "=" + EscapeStr(value) + "\n"];
      hash := hash[option := value];
      log := log + [Setting(option, value)];
      hide Settings, EscapeStr;
      assert lines == Lines(log);
    }

    method AppendLine(line: string)
      requires Valid()
      modifies this
      ensures Valid() && log == old(log) + [Raw(line)]
      ensures lines == old(lines) + [line] && hash == old(hash)
    {
      SettingsAppend(map[], log, Raw(line));
      lines := lines + [line];
      log := log + [Raw(line)];
      assert lines == Lines(log);
    }

    /** The value appended last. */
    method Get(option: string) returns (r: Option<string>)
      requires Valid()
      ensures r.None? <==> forall i :: 0 <= i < |log| ==> !Sets(log[i], option)
      ensures r.Some? ==>
        exists i :: 0 <= i < |log| && log[i] == Setting(option, r.value)
                 && forall j :: i < j < |log| ==> !Sets(log[j], option)
    {
      LastWins(log, option);
      r := if option in hash then Some(hash[option]) else None;
    }

    /** The text of the file; when only settings were appended, reading it gives every option its value
        exactly when all are called what the server takes for option names. */
    method Display() returns (text: string)
      requires Valid()
      ensures text == Concat(Lines(log))
      ensures (forall e :: e in log ==> e.Setting?) ==> (ReadFile(text, map[]) == Some(hash) <==> Named(log))
    {
      text := "";
      for i := 0 to |lines|
        invariant text == Concat(lines[..i])
      {
        ConcatAppend(lines[..i], lines[i]);
        assert lines[..i + 1] == lines[..i] + [lines[i]];
        text := text + lines[i];
      }
      assert lines[..|lines|] == lines;
      if forall e :: e in log ==> e.Setting? {
        FileRoundTrip(log);
      }
    }
  }
}
