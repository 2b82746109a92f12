/** Inputs from the formatter's test cases, rendered as `Format` renders them. */
module FormatCases {
  import opened Wrappers
  import opened Grammar
  import opened Arraystring
  import opened ContentTypes
  import opened Formatter

  /** format_test.go:58-69: the parameters come out in name order. */
  lemma ParametersInNameOrder()
    ensures FormatSpec(ContentType("text/html", map["charset" := "utf-8", "foo" := "bar", "bar" := "baz"]))
         == Ok("text/html; bar=baz; charset=utf-8; foo=bar")
  {
    var ct := ContentType("text/html", map["charset" := "utf-8", "foo" := "bar", "bar" := "baz"]);
    var t := Rendered(ct.parameters);
    TextHtmlIsType();
    FormatSpecRenders(ct, ["bar", "charset", "foo"]);
    Glue(ct.typ, t);
  }

  lemma Rendered(m: map<string, string>) returns (t: string)
    requires m == map["charset" := "utf-8", "foo" := "bar", "bar" := "baz"]
    ensures SortedKeys(m.Keys) == ["bar", "charset", "foo"] && Named(m, ["bar", "charset", "foo"])
    ensures RenderParams(m, ["bar", "charset", "foo"]) == Ok(t)
    ensures t == Segment("bar", "baz") + Segment("charset", "utf-8") + Segment("foo", "bar")
  {
    NamesInOrder(m);
    TokensHere(m);
    RenderThree(m, "bar", "charset", "foo");
    t := Segment("bar", "baz") + Segment("charset", "utf-8") + Segment("foo", "bar");
  }

  lemma Glue(typ: string, t: string)
    requires typ == "text/html" && t == Segment("bar", "baz") + Segment("charset", "utf-8") + Segment("foo", "bar")
    ensures typ + t == "text/html; bar=baz; charset=utf-8; foo=bar"
  {
  }

  lemma TokensHere(m: map<string, string>)
    requires m == map["charset" := "utf-8", "foo" := "bar", "bar" := "baz"]
    ensures "bar" in m && "charset" in m && "foo" in m
    ensures m["bar"] == "baz" && m["charset"] == "utf-8" && m["foo"] == "bar"
    ensures IsToken("bar") && IsToken("baz") && IsToken("charset") && IsToken("utf-8") && IsToken("foo")
  {
  }

  /** Three names whose names and values are tokens render as three bare segments. */
  lemma RenderThree(m: map<string, string>, a: string, b: string, c: string)
    requires a in m && b in m && c in m
    requires IsToken(a) && IsToken(b) && IsToken(c) && IsToken(m[a]) && IsToken(m[b]) && IsToken(m[c])
    ensures Named(m, [a, b, c])
    ensures RenderParams(m, [a, b, c]) == Ok(Segment(a, m[a]) + Segment(b, m[b]) + Segment(c, m[c]))
  {
    var ks := [a, b, c];
    assert ks[..0] == [] && ks[..3] == ks;
    RenderStep(m, ks, 0, "");
    RenderStep(m, ks, 1, "" + Segment(a, m[a]));
    RenderStep(m, ks, 2, "" + Segment(a, m[a]) + Segment(b, m[b]));
    assert "" + Segment(a, m[a]) == Segment(a, m[a]);
  }

  /** The names of format_test.go:58-69 sorted: `bar`, `charset`, `foo`. */
  lemma NamesInOrder(m: map<string, string>)
    requires m == map["charset" := "utf-8", "foo" := "bar", "bar" := "baz"]
    ensures SortedKeys(m.Keys) == ["bar", "charset", "foo"]
  {
    var s := ["bar", "charset", "foo"];
    assert StrLess(s[0], s[1]) && StrLess(s[1], s[2]) && StrLess(s[0], s[2]);
    assert m.Keys == {"charset", "foo", "bar"};
    assert |{"charset", "foo", "bar"}| == 3;
    SortedListingIsSortedKeys(s, m.Keys);
  }

  lemma TextHtmlIsType()
    ensures IsType("text/html")
  {
    assert IsToken("text") && IsToken("html");
    assert "text/html" == "text" + "/" + "html";
    TokensMakeType("text", "html");
  }

  /** format_test.go:36-45: a value with a space is quoted, and its quotes are escaped. */
  lemma QuotesAreEscaped()
    ensures FormatSpec(ContentType("text/html", map["foo" := "bar or \"baz\""]))
         == Ok("text/html; foo=\"bar or \\\"baz\\\"\"")
  {
    var ct := ContentType("text/html", map["foo" := "bar or \"baz\""]);
    var q := QuotedValue(ct.parameters["foo"]);
    var t := RenderedQuoted(ct.parameters, q);
    TextHtmlIsType();
    FormatSpecRenders(ct, ["foo"]);
    GlueQuoted(ct.typ, t);
  }

  lemma RenderedQuoted(m: map<string, string>, q: string) returns (t: string)
    requires m.Keys == {"foo"} && QString(m["foo"]) == Ok(q)
    ensures SortedKeys(m.Keys) == ["foo"] && Named(m, ["foo"])
    ensures RenderParams(m, ["foo"]) == Ok(t) && t == Segment("foo", q)
  {
    var ks := ["foo"];
    SortedListingIsSortedKeys(ks, m.Keys);
    assert IsToken("foo");
    assert ks[..0] == [] && ks[..1] == ks;
    RenderStep(m, ks, 0, "");
    assert "" + Segment("foo", q) == Segment("foo", q);
    t := Segment("foo", q);
  }

  /** `bar or "baz"` is no token but is all text, so it is quoted with its quotes escaped. */
  lemma QuotedValue(v: string) returns (q: string)
    requires v == "bar or \"baz\""
    ensures QString(v) == Ok(q) && q == "\"bar or \\\"baz\\\"\""
  {
    var a, b := "bar or ", "baz";
    assert v == a + "\"" + b + "\"";
    assert !IsTChar(v[3]);
    assert AllText(v);
    EscapeQuotes(a, b);
    q := "\"" + Escape(v) + "\"";
    GlueEscaped(a, b, q);
  }

  /** Two verbatim runs, each followed by a double quote, escape to the runs with `\"` after each. */
  lemma EscapeQuotes(a: string, b: string)
    requires forall i :: 0 <= i < |a| ==> a[i] != '\\' && a[i] != '"'
    requires forall i :: 0 <= i < |b| ==> b[i] != '\\' && b[i] != '"'
    ensures Escape(a + "\"" + b + "\"") == a + "\\\"" + b + "\\\""
  {
    EscapeAppend(a + "\"" + b, "\"");
    EscapeAppend(a + "\"", b);
    EscapeAppend(a, "\"");
    EscapeVerbatim(a);
    EscapeVerbatim(b);
    QuoteEscaped();
  }

  lemma QuoteEscaped()
    ensures Escape("\"") == "\\\""
  {
    assert "\""[1..] == [];
  }

  lemma GlueEscaped(a: string, b: string, q: string)
    requires a == "bar or " && b == "baz" && q == "\"" + (a + "\\\"" + b + "\\\"") + "\""
    ensures q == "\"bar or \\\"baz\\\"\""
  {
  }

  lemma GlueQuoted(typ: string, t: string)
    requires typ == "text/html" && t == Segment("foo", "\"bar or \\\"baz\\\"\"")
    ensures typ + t == "text/html; foo=\"bar or \\\"baz\\\"\""
  {
  }
}
