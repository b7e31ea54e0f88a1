/** Dollar quoting with a tag that does not occur in the string. */
module DollarQuote {
  import opened Options

  /** The tags that are tried: one `x` more each time. */
  function Xs(n: nat): (t: string)
    ensures |t| == n && forall i :: 0 <= i < n ==> t[i] == 'x'
  {
    if n == 0 then "" else Xs(n - 1) + "x"
  }

  function Delimiter(tag: string): string {
    "$" + tag + "$"
  }

  predicate OccursAt(t: string, d: string, p: nat) {
    p + |d| <= |t| && forall i :: 0 <= i < |d| ==> t[p + i] == d[i]
  }

  predicate Contains(t: string, d: string) {
    exists p :: 0 <= p <= |t| && OccursAt(t, d, p)
  }

  predicate EndsWith(t: string, d: string) {
    |d| <= |t| && OccursAt(t, d, |t| - |d|)
  }

  predicate StartsWith(t: string, d: string) {
    OccursAt(t, d, 0)
  }

  function Quoted(s: string, tag: string): string {
    Delimiter(tag) + s + Delimiter(tag)
  }

  /** Neither delimiter occurs in the string. */
  ghost predicate Suitable(s: string, m: nat) {
    !Contains(s, Delimiter(Xs(m))) && !Contains(s, Delimiter(Xs(m + 1)))
  }

  /** `m` is the length of the first suitable tag. */
  ghost predicate First(s: string, m: nat) {
    m >= 1 && Suitable(s, m) && forall k :: 1 <= k < m ==> !Suitable(s, k)
  }

  /** The search ends, and the tags it returns are the first suitable ones. */
  method PgQuoteDollar(s: string) returns (escaped: string, outer: string, m: nat)
    ensures First(s, m) && outer == Xs(m + 1) && escaped == Quoted(s, Xs(m))
  {
    var tag := "x";
    outer := "xx";
    m := 1;
    assert Xs(1) == "x" && Xs(2) == "xx";
    while Contains(s, Delimiter(tag)) || Contains(s, Delimiter(outer))
      invariant m >= 1 && tag == Xs(m) && outer == Xs(m + 1)
      invariant forall k :: 1 <= k < m ==> !Suitable(s, k)
      decreases |s| - |tag|
    {
      tag := tag + "x";
      outer := tag + "x";
      m := m + 1;
    }
    escaped := Quoted(s, tag);
  }

  // ---------- Reading a dollar-quoted string ----------

  /** The first occurrence of `d` at or after `p`. */
  function Find(t: string, d: string, p: nat): (r: Option<nat>)
    requires p <= |t|
    ensures r.Some? ==> p <= r.value && OccursAt(t, d, r.value)
    ensures r.Some? ==> forall q :: p <= q < r.value ==> !OccursAt(t, d, q)
    ensures r.None? ==> forall q :: p <= q <= |t| ==> !OccursAt(t, d, q)
    decreases |t| - p
  {
    if OccursAt(t, d, p) then Some(p) else if p == |t| then None else Find(t, d, p + 1)
  }

  /** The string between an opening delimiter and the next equal delimiter, and the text after it. */
  function ReadDollar(t: string, tag: string): Option<(string, string)> {
    var d := Delimiter(tag);
    if !StartsWith(t, d) then None else
      var body := t[|d|..];
      var end := Find(body, d, 0);
      if end.None? then None else Some((body[..end.value], body[end.value + |d|..]))
  }

  lemma DelimiterChars(n: nat)
    ensures var d := Delimiter(Xs(n));
      |d| == n + 2 && d[0] == '$' && d[n + 1] == '$' && forall i :: 1 <= i <= n ==> d[i] == 'x'
  {
    var d := Delimiter(Xs(n));
    forall i | 1 <= i <= n ensures d[i] == 'x' { assert d[i] == Xs(n)[i - 1]; }
  }

  lemma QuotedChars(s: string, m: nat)
    ensures var e := Quoted(s, Xs(m));
      && |e| == |s| + 2 * m + 4 && e[0] == '$' && e[m + 1] == '$' && e[m + 2 + |s|] == '$'
      && (forall i :: 1 <= i <= m ==> e[i] == 'x')
      && (forall i :: 0 <= i < |s| ==> e[m + 2 + i] == s[i])
  {
    DelimiterChars(m);
    var d, e := Delimiter(Xs(m)), Quoted(s, Xs(m));
    forall i | 1 <= i <= m ensures e[i] == 'x' { assert e[i] == d[i]; }
  }

  /** Two delimiters can overlap only in a dollar sign. */
  lemma OverlapIsDollar(s: string, tail: string, m: nat, p: nat)
    requires !Contains(s, Delimiter(Xs(m)))
    requires p < |s| && OccursAt(s + Delimiter(Xs(m)) + tail, Delimiter(Xs(m)), p)
    ensures p == |s| - (m + 1) && EndsWith(s, "$" + Xs(m))
  {
    var d := Delimiter(Xs(m));
    var t := s + d + tail;
    if p + |d| <= |s| {
      forall i | 0 <= i < |d| ensures s[p + i] == d[i] { assert s[p + i] == t[p + i]; }
      assert OccursAt(s, d, p);
    } else {
      var k := |s| - p;
      assert t[p + k] == d[0] == '$';
      assert d[k] == t[p + k];
      assert forall i :: 0 <= i < m + 1 ==> s[p + i] == t[p + i] == d[i] == ("$" + Xs(m))[i];
    }
  }

  lemma EndMeetsDelimiter(s: string, tail: string, m: nat)
    requires EndsWith(s, "$" + Xs(m))
    ensures m + 1 <= |s| && OccursAt(s + Delimiter(Xs(m)) + tail, Delimiter(Xs(m)), |s| - (m + 1))
  {
    var d := Delimiter(Xs(m));
    var t := s + d + tail;
    var p := |s| - (m + 1);
    forall i | 0 <= i < |d| ensures t[p + i] == d[i] {
      if i < m + 1 {
        assert t[p + i] == s[p + i] == ("$" + Xs(m))[i];
      }
    }
  }

  lemma ClosingOccurs(s: string, d: string, tail: string)
    ensures OccursAt(s + d + tail, d, |s|)
  {
  }

  lemma OccursChar(t: string, d: string, p: nat, i: nat)
    requires OccursAt(t, d, p) && i < |d|
    ensures p + i < |t| && t[p + i] == d[i]
  {
  }

  /** The first delimiter after the opening one is the closing one, exactly when the string does not end in
      a dollar sign followed by the tag. */
  lemma FirstIsClosing(s: string, tail: string, m: nat)
    requires !Contains(s, Delimiter(Xs(m)))
    ensures var d := Delimiter(Xs(m)); Find(s + d + tail, d, 0) == Some(|s|) <==> !EndsWith(s, "$" + Xs(m))
  {
    hide Find, OccursAt, EndsWith, Contains, Xs, Delimiter;
    var d := Delimiter(Xs(m));
    ClosingOccurs(s, d, tail);
    var end := Find(s + d + tail, d, 0);
    if EndsWith(s, "$" + Xs(m)) {
      EndMeetsDelimiter(s, tail, m);
    } else if end.value < |s| {
      OverlapIsDollar(s, tail, m, end.value);
    }
  }

  /** A delimiter inside the string is found before the closing one. */
  lemma InsideComesFirst(s: string, tail: string, d: string)
    requires Contains(s, d) && d != ""
    ensures var end := Find(s + d + tail, d, 0); end.Some? && end.value < |s|
  {
    var t := s + d + tail;
    var p :| 0 <= p <= |s| && OccursAt(s, d, p);
    forall i | 0 <= i < |d| ensures t[p + i] == d[i] { assert t[p + i] == s[p + i]; }
    assert OccursAt(t, d, p);
  }

  /** Where reading the quoted string stops. */
  lemma StopsAtEnd(s: string, tail: string, m: nat)
    ensures var d := Delimiter(Xs(m));
      Find(s + d + tail, d, 0) == Some(|s|) <==> !Contains(s, d) && !EndsWith(s, "$" + Xs(m))
  {
    var d := Delimiter(Xs(m));
    assert d != "";
    hide Find, Contains, EndsWith, Delimiter;
    if Contains(s, d) {
      InsideComesFirst(s, tail, d);
    } else {
      FirstIsClosing(s, tail, m);
    }
  }

  /** The quoted string is read back exactly when it does not contain the delimiter and does not end in a
      dollar sign followed by the tag. */
  lemma DollarRoundTrip(s: string, tail: string, m: nat)
    ensures ReadDollar(Quoted(s, Xs(m)) + tail, Xs(m)) == Some((s, tail))
       <==> !Contains(s, Delimiter(Xs(m))) && !EndsWith(s, "$" + Xs(m))
  {
    var d := Delimiter(Xs(m));
    var t, body := Quoted(s, Xs(m)) + tail, s + d + tail;
    assert StartsWith(t, d) && t[|d|..] == body;
    StopsAtEnd(s, tail, m);
    hide Find, Delimiter, Quoted, StartsWith, EndsWith, Contains;
    var end := Find(body, d, 0);
    if end == Some(|s|) {
      assert body[..|s|] == s && body[|s| + |d|..] == tail;
    } else if end.Some? {
      assert |body[..end.value]| != |s|;
    }
  }

  /** Example: for a$x the search returns the tag x, and only an a is read back. */
  lemma EndingInTag(m: nat)
    requires First("a$x", m)
    ensures m == 1 && ReadDollar(Quoted("a$x", "x"), "x") == Some(("a", "x$"))
  {
    ShortSuitable("a$x");
    FoundInside();
    hide Find;
    var d, body := Delimiter("x"), "a$x$x$";
    assert d == "$x$" && Quoted("a$x", "x") == d + body && (d + body)[3..] == body;
    assert StartsWith(d + body, d);
    assert body[..1] == "a" && body[1 + 3..] == "x$";
  }

  lemma FoundInside()
    ensures Find("a$x$x$", "$x$", 0) == Some(1)
  {
    var d, body := "$x$", "a$x$x$";
    assert body[0 + 0] != d[0];
    assert OccursAt(body, d, 1);
  }

  lemma WholeString(s: string, p: nat)
    requires |s| <= 3 && OccursAt(s, "$x$", p)
    ensures s == "$x$"
  {
    var d := "$x$";
    assert s[p + 0] == d[0] && s[p + 1] == d[1] && s[p + 2] == d[2];
  }

  /** A string of at most three characters that is no delimiter itself gets the first tag. */
  lemma ShortSuitable(s: string)
    requires |s| <= 3 && s != "$x$"
    ensures Suitable(s, 1) && Xs(1) == "x" && Xs(2) == "xx"
  {
    assert Xs(1) == "x" && Xs(2) == "xx";
    assert Delimiter("x") == "$x$";
    forall p | 0 <= p <= |s| ensures !OccursAt(s, "$x$", p) {
      if OccursAt(s, "$x$", p) {
        WholeString(s, p);
      }
    }
  }

  // ---------- The outer tag ----------

  /** The delimiter of the outer tag occurs in the quoted string exactly when the string is the outer tag,
      begins with it and a dollar sign, or ends in a dollar sign and it. */
  lemma OuterOccursIff(s: string, m: nat)
    requires Suitable(s, m)
    ensures var outer := Xs(m + 1);
      Contains(Quoted(s, Xs(m)), Delimiter(outer))
      <==> s == outer || StartsWith(s, outer + "$") || EndsWith(s, "$" + outer)
  {
    var outer, d, e := Xs(m + 1), Delimiter(Xs(m)), Quoted(s, Xs(m));
    var o := Delimiter(outer);
    if s == outer || StartsWith(s, outer + "$") {
      OuterAtStart(s, m);
    }
    if EndsWith(s, "$" + outer) {
      OuterAtEnd(s, m);
    }
    if Contains(e, o) {
      var q :| 0 <= q <= |e| && OccursAt(e, o, q);
      OuterWhere(s, m, q);
    }
  }

  /** The quoted string, from the dollar sign before the string to the one after it. */
  lemma QuotedAt(s: string, m: nat, i: nat)
    requires i <= |s| + 1
    ensures m + 1 + i < |Quoted(s, Xs(m))| && Quoted(s, Xs(m))[m + 1 + i] == ("$" + s + "$")[i]
  {
    assert Quoted(s, Xs(m)) == "$" + Xs(m) + ("$" + s + "$") + (Xs(m) + "$");
  }

  lemma OuterAtStart(s: string, m: nat)
    requires s == Xs(m + 1) || StartsWith(s, Xs(m + 1) + "$")
    ensures OccursAt(Quoted(s, Xs(m)), Delimiter(Xs(m + 1)), m + 1)
  {
    var e, o := Quoted(s, Xs(m)), Delimiter(Xs(m + 1));
    DelimiterChars(m + 1);
    StartChars(s, m);
    QuotedAt(s, m, m + 2);
    hide Quoted, Delimiter, StartsWith, Xs;
    forall i | 0 <= i < |o| ensures e[m + 1 + i] == o[i] {
      QuotedAt(s, m, i);
    }
  }

  lemma StartChars(s: string, m: nat)
    requires s == Xs(m + 1) || StartsWith(s, Xs(m + 1) + "$")
    ensures |s| >= m + 1 && (forall i :: 0 <= i <= m ==> s[i] == 'x') && (|s| > m + 1 ==> s[m + 1] == '$')
  {
    var start := Xs(m + 1) + "$";
    if s != Xs(m + 1) {
      forall i | 0 <= i < |start| ensures s[i] == start[i] { assert s[0 + i] == start[i]; }
    }
  }

  lemma OuterAtEnd(s: string, m: nat)
    requires EndsWith(s, "$" + Xs(m + 1))
    ensures OccursAt(Quoted(s, Xs(m)), Delimiter(Xs(m + 1)), |s|)
  {
    var e, o := Quoted(s, Xs(m)), Delimiter(Xs(m + 1));
    var suffix := "$" + Xs(m + 1);
    assert forall i :: 0 <= i < |s| ==> e[m + 2 + i] == s[i];
    forall i | 0 <= i < |o| ensures e[|s| + i] == o[i] {
      if i < m + 2 {
        assert e[|s| + i] == s[|s| - (m + 2) + i] == suffix[i];
      }
    }
  }

  lemma OuterWhere(s: string, m: nat, q: nat)
    requires !Contains(s, Delimiter(Xs(m + 1)))
    requires OccursAt(Quoted(s, Xs(m)), Delimiter(Xs(m + 1)), q)
    ensures s == Xs(m + 1) || StartsWith(s, Xs(m + 1) + "$") || EndsWith(s, "$" + Xs(m + 1))
  {
    var e, o := Quoted(s, Xs(m)), Delimiter(Xs(m + 1));
    hide OccursAt, Quoted, Delimiter, Contains, StartsWith, EndsWith;
    DelimiterChars(m + 1);
    QuotedChars(s, m);
    OccursChar(e, o, q, 0);
    OccursChar(e, o, q, m + 1);
    if q == m + 1 {
      OuterFirst(s, m);
    } else if q > m + 1 {
      OuterLater(s, m, q - (m + 2));
    }
  }

  lemma OuterFirst(s: string, m: nat)
    requires OccursAt(Quoted(s, Xs(m)), Delimiter(Xs(m + 1)), m + 1)
    ensures s == Xs(m + 1) || StartsWith(s, Xs(m + 1) + "$")
  {
    var e, o, start := Quoted(s, Xs(m)), Delimiter(Xs(m + 1)), Xs(m + 1) + "$";
    DelimiterChars(m + 1);
    QuotedChars(s, m);
    var k := if |s| <= m then |s| else 0;
    assert e[m + 1 + (k + 1)] == o[k + 1];
    forall i | 0 <= i <= m ensures s[i] == 'x' {
      assert s[i] == e[m + 2 + i];
      assert e[m + 1 + (i + 1)] == o[i + 1];
    }
    if |s| > m + 1 {
      assert s[m + 1] == e[m + 2 + (m + 1)];
      assert e[m + 1 + (m + 2)] == o[m + 2];
      forall i | 0 <= i < |start| ensures s[0 + i] == start[i] { }
    } else {
      assert s == Xs(m + 1);
    }
  }

  lemma InsideQuoted(s: string, m: nat, j: nat)
    requires j + m + 3 <= |s| && OccursAt(Quoted(s, Xs(m)), Delimiter(Xs(m + 1)), m + 2 + j)
    ensures Contains(s, Delimiter(Xs(m + 1)))
  {
    var e, o := Quoted(s, Xs(m)), Delimiter(Xs(m + 1));
    forall i | 0 <= i < |o| ensures s[j + i] == o[i] {
      hide *;
      QuotedEnd("", m + 1);
      QuotedAt(s, m, j + i + 1);
      OccursChar(e, o, m + 2 + j, i);
    }
    assert OccursAt(s, o, j);
  }

  lemma QuotedEnd(s: string, m: nat)
    ensures |Quoted(s, Xs(m))| == |s| + 2 * m + 4 && Quoted(s, Xs(m))[m + 2 + |s|] == '$'
    ensures |Delimiter(Xs(m))| == m + 2
  {
  }

  lemma DollarWhere(n: nat, k: nat)
    requires 1 <= k < |Delimiter(Xs(n))| && Delimiter(Xs(n))[k] == '$'
    ensures k == n + 1
  {
    DelimiterChars(n);
  }

  lemma OuterLater(s: string, m: nat, j: nat)
    requires !Contains(s, Delimiter(Xs(m + 1)))
    requires OccursAt(Quoted(s, Xs(m)), Delimiter(Xs(m + 1)), m + 2 + j)
    ensures EndsWith(s, "$" + Xs(m + 1))
  {
    hide OccursAt, Quoted, Delimiter, Contains, EndsWith, Xs;
    var e, o := Quoted(s, Xs(m)), Delimiter(Xs(m + 1));
    QuotedEnd(s, m);
    QuotedEnd("", m + 1);
    if j + |o| <= |s| {
      InsideQuoted(s, m, j);
    } else {
      OccursChar(e, o, m + 2 + j, |o| - 1);
      OccursChar(e, o, m + 2 + j, |s| - j);
      DollarWhere(m + 1, |s| - j);
      OuterSuffix(s, m, j);
    }
  }

  lemma OuterSuffix(s: string, m: nat, j: nat)
    requires |s| == j + m + 2
    requires OccursAt(Quoted(s, Xs(m)), Delimiter(Xs(m + 1)), m + 2 + j)
    ensures EndsWith(s, "$" + Xs(m + 1))
  {
    var e, o, suffix := Quoted(s, Xs(m)), Delimiter(Xs(m + 1)), "$" + Xs(m + 1);
    QuotedChars(s, m);
    forall i | 0 <= i < |suffix| ensures s[j + i] == suffix[i] {
      assert s[j + i] == e[m + 2 + (j + i)];
      OccursChar(e, o, m + 2 + j, i);
      assert o[i] == suffix[i];
    }
  }

  // ---------- The statement around the quoted string ----------

  /** The text of a statement template before, between and after its two places for a quoted name. */
  datatype Template = Template(before: string, between: string, after: string)

  /** No delimiter crosses one of the three texts, and none that ends in a tag is completed by the last. */
  ghost predicate Neutral(t: Template) {
    && Separates(t.before) && Separates(t.between) && Separates(t.after)
    && t.after[|t.after| - 1] != 'x'
  }

  /** The body of the statement: the name stands in it twice. */
  function Body(t: Template, s: string, m: nat): string {
    t.before + Quoted(s, Xs(m)) + t.between + Quoted(s, Xs(m)) + t.after
  }

  /** The whole statement, its body quoted with the outer tag. */
  function Rendered(t: Template, s: string, m: nat): string {
    "DO " + Quoted(Body(t, s, m), Xs(m + 1)) + ";\n"
  }

  /** Text that no delimiter can cross. */
  ghost predicate Separates(t: string) {
    '$' !in t && exists k :: 0 <= k < |t| && t[k] != 'x'
  }

  lemma SideOf(a: string, sep: string, b: string, n: nat, p: nat)
    requires Separates(sep) && OccursAt(a + sep + b, Delimiter(Xs(n)), p)
    ensures p + n + 2 <= |a| || p >= |a| + |sep|
  {
    var t, d := a + sep + b, Delimiter(Xs(n));
    DelimiterChars(n);
    var k :| 0 <= k < |sep| && sep[k] != 'x';
    hide Delimiter, Xs;
    OccursChar(t, d, p, 0);
    OccursChar(t, d, p, n + 1);
    NotInside(a, sep, b, p);
    NotInside(a, sep, b, p + n + 1);
    assert t[|a| + k] == sep[k];
    if p < |a| && p + n + 1 >= |a| + |sep| {
      OccursChar(t, d, p, |a| + k - p);
    }
  }

  lemma NotInside(a: string, sep: string, b: string, p: nat)
    requires '$' !in sep && p < |a + sep + b| && (a + sep + b)[p] == '$'
    ensures p < |a| || p >= |a| + |sep|
  {
    if |a| <= p < |a| + |sep| {
      FromMiddle(a, sep, b, p);
    }
  }

  lemma FromMiddle(a: string, sep: string, b: string, p: nat)
    requires |a| <= p < |a| + |sep|
    ensures (a + sep + b)[p] in sep
  {
    assert (a + sep + b)[p] == sep[p - |a|];
  }

  lemma ContainsSplit(a: string, sep: string, b: string, n: nat)
    requires Separates(sep)
    ensures var d := Delimiter(Xs(n)); Contains(a + sep + b, d) <==> Contains(a, d) || Contains(b, d)
  {
    var t, d := a + sep + b, Delimiter(Xs(n));
    DelimiterChars(n);
    if Contains(t, d) {
      var p :| 0 <= p <= |t| && OccursAt(t, d, p);
      SideOf(a, sep, b, n, p);
      hide Delimiter, Xs, Separates;
      if p + n + 2 <= |a| {
        forall i | 0 <= i < |d| ensures a[p + i] == d[i] { assert t[p + i] == a[p + i]; }
        assert OccursAt(a, d, p);
      } else {
        var q := p - |a| - |sep|;
        forall i | 0 <= i < |d| ensures b[q + i] == d[i] { assert t[p + i] == b[q + i]; }
        assert OccursAt(b, d, q);
      }
    }
    WithinWhole(a, sep, b, d);
  }

  lemma WithinWhole(a: string, sep: string, b: string, d: string)
    ensures Contains(a, d) || Contains(b, d) ==> Contains(a + sep + b, d)
  {
    var t := a + sep + b;
    if Contains(a, d) {
      var p :| 0 <= p <= |a| && OccursAt(a, d, p);
      forall i | 0 <= i < |d| ensures t[p + i] == d[i] { assert t[p + i] == a[p + i]; }
      assert OccursAt(t, d, p);
    }
    if Contains(b, d) {
      var p :| 0 <= p <= |b| && OccursAt(b, d, p);
      var q := |a| + |sep| + p;
      forall i | 0 <= i < |d| ensures t[q + i] == d[i] { assert t[q + i] == b[p + i]; }
      assert OccursAt(t, d, q);
    }
  }

  lemma EmptyHasNone(n: nat)
    ensures !Contains("", Delimiter(Xs(n)))
  {
    DelimiterChars(n);
  }

  /** The outer delimiter occurs in the body exactly when it occurs in the quoted name. */
  lemma BodyContains(t: Template, s: string, m: nat)
    requires Neutral(t)
    ensures var d := Delimiter(Xs(m + 1)); Contains(Body(t, s, m), d) <==> Contains(Quoted(s, Xs(m)), d)
  {
    hide Delimiter, Contains, Quoted, Xs, Separates;
    var q := Quoted(s, Xs(m));
    EmptyHasNone(m + 1);
    ContainsSplit("", t.before, q, m + 1);
    ContainsSplit(q, t.after, "", m + 1);
    ContainsSplit(t.before + q, t.between, q + t.after, m + 1);
    assert "" + t.before + q == t.before + q && q + t.after + "" == q + t.after;
    assert t.before + q + t.between + (q + t.after) == Body(t, s, m);
  }

  /** The server takes the statement's whole body for the body exactly when the name is not the outer tag, does
      not begin with it and a dollar sign, and does not end in a dollar sign and it. */
  lemma RenderedIsRead(t: Template, s: string, m: nat)
    requires Suitable(s, m) && Neutral(t)
    ensures var outer := Xs(m + 1);
      ReadDollar(Rendered(t, s, m)[3..], outer) == Some((Body(t, s, m), ";\n"))
      <==> !(s == outer || StartsWith(s, outer + "$") || EndsWith(s, "$" + outer))
  {
    hide Quoted, Body, ReadDollar, Delimiter, Contains, StartsWith, EndsWith, Suitable, Xs, Neutral;
    var outer, body := Xs(m + 1), Body(t, s, m);
    assert Rendered(t, s, m)[3..] == Quoted(body, outer) + ";\n";
    DollarRoundTrip(body, ";\n", m + 1);
    BodyContains(t, s, m);
    OuterOccursIff(s, m);
    BodyEnd(t, s, m);
  }

  lemma LastChar(t: string, d: string)
    requires d != "" && EndsWith(t, d)
    ensures t[|t| - 1] == d[|d| - 1]
  {
    assert t[|t| - |d| + (|d| - 1)] == d[|d| - 1];
  }

  lemma BodyEnd(t: Template, s: string, m: nat)
    requires Neutral(t)
    ensures !EndsWith(Body(t, s, m), "$" + Xs(m + 1))
  {
    var body, end := Body(t, s, m), "$" + Xs(m + 1);
    assert body[|body| - 1] == t.after[|t.after| - 1];
    assert end[|end| - 1] == 'x';
    hide Body, Xs;
    if EndsWith(body, end) {
      LastChar(body, end);
    }
  }

  /** Example: a database called xx. The search returns the tags x and xx, and the statement is cut short. */
  lemma NameIsOuterTag(t: Template, m: nat)
    requires First("xx", m) && Neutral(t)
    ensures m == 1 && ReadDollar(Rendered(t, "xx", m)[3..], "xx") != Some((Body(t, "xx", m), ";\n"))
  {
    ShortSuitable("xx");
    RenderedIsRead(t, "xx", 1);
  }
}
