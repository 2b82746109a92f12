/** Inputs from the parser's test cases, read as `Parse` reads them. */
module ParseCases {
  import opened Wrappers
  import opened GoStrings
  import opened Grammar
  import opened ParamScanner
  import opened ContentTypes
  import opened Parser
  import opened Formatter
  import opened RoundTrip
  import opened FormatCases

  /** parse_test.go:72-79: the parameter name is lowered, its value is kept as written. */
  lemma NameIsLowered()
    ensures ParseSpec("text/html; Charset=UTF-8") == Ok(ContentType("text/html", map["charset" := "UTF-8"]))
  {
    var typ, k, q := "text/html", "Charset", "UTF-8";
    assert "text/html; Charset=UTF-8" == typ + Segment(k, q);
    CharsetParsed(typ, k, q);
  }

  lemma CharsetParsed(typ: string, k: string, q: string)
    requires typ == "text/html" && k == "Charset" && q == "UTF-8"
    ensures ParseSpec(typ + Segment(k, q)) == Ok(ContentType(typ, map["charset" := q]))
  {
    TextHtmlIsType();
    HtmlHead(typ);
    CharsetTokens(k, q);
    OneTokenParameter(typ, k, q);
    LowerCharset(k);
  }

  lemma CharsetTokens(k: string, q: string)
    requires k == "Charset" && q == "UTF-8"
    ensures IsToken(k) && IsToken(q)
  {
  }

  lemma LowerCharset(k: string)
    requires k == "Charset"
    ensures ToLower(k) == "charset"
  {
  }

  /** parse_test.go:111-114: a quoted value without its closing quote is no parameter. */
  lemma UnclosedQuoteRefused()
    ensures ParseSpec("text/plain; foo=\"bar") == Err(InvalidParameterFormat)
  {
    var typ, k, body := "text/plain", "foo", "bar";
    assert "text/plain; foo=\"bar" == typ + "; " + k + "=\"" + body;
    UnclosedParsed(typ, k, body);
  }

  lemma UnclosedParsed(typ: string, k: string, body: string)
    requires typ == "text/plain" && k == "foo" && body == "bar"
    ensures ParseSpec(typ + "; " + k + "=\"" + body) == Err(InvalidParameterFormat)
  {
    PlainType(typ);
    PlainHead(typ);
    UnclosedTokens(k, body);
    UnclosedQuote(typ, k, body);
  }

  lemma UnclosedTokens(k: string, body: string)
    requires k == "foo" && body == "bar"
    ensures IsToken(k) && forall i :: 0 <= i < |body| ==> IsQdText(body[i])
  {
  }

  /** parse_test.go:119-122: a value stops at `:`, and what follows is no parameter. */
  lemma UnquotedUrlRefused()
    ensures ParseSpec("text/plain; profile=http://localhost") == Err(InvalidParameterFormat)
  {
    var typ, k, q, rest := "text/plain", "profile", "http", "://localhost";
    assert "text/plain; profile=http://localhost" == typ + Segment(k, q) + rest;
    UrlParsed(typ, k, q, rest);
  }

  lemma UrlParsed(typ: string, k: string, q: string, rest: string)
    requires typ == "text/plain" && k == "profile" && q == "http" && rest == "://localhost"
    ensures ParseSpec(typ + Segment(k, q) + rest) == Err(InvalidParameterFormat)
  {
    PlainType(typ);
    PlainHead(typ);
    UrlTokens(k, q, rest);
    TokenParameterThenJunk(typ, k, q, rest);
  }

  lemma UrlTokens(k: string, q: string, rest: string)
    requires k == "profile" && q == "http" && rest == "://localhost"
    ensures IsToken(k) && IsToken(q) && rest != [] && rest[0] != ' ' && rest[0] != ';' && !IsTChar(rest[0])
  {
  }

  lemma HtmlHead(typ: string)
    requires typ == "text/html"
    ensures IsLower(typ) && !IsSpace(typ[0]) && !IsSpace(typ[|typ| - 1]) && ';' !in typ
  {
  }

  lemma PlainType(typ: string)
    requires typ == "text/plain"
    ensures IsType(typ)
  {
    assert IsToken("text") && IsToken("plain");
    assert typ == "text" + "/" + "plain";
    TokensMakeType("text", "plain");
  }

  lemma PlainHead(typ: string)
    requires typ == "text/plain"
    ensures IsLower(typ) && !IsSpace(typ[0]) && !IsSpace(typ[|typ| - 1]) && ';' !in typ
  {
  }

  /** A lower-case type followed by one parameter whose name and value are tokens: the name is lowered. */
  lemma OneTokenParameter(typ: string, k: string, q: string)
    requires IsType(typ) && IsLower(typ) && ';' !in typ && !IsSpace(typ[0]) && !IsSpace(typ[|typ| - 1])
    requires IsToken(k) && IsToken(q)
    ensures ParseSpec(typ + Segment(k, q)) == Ok(ContentType(typ, map[ToLower(k) := q]))
  {
    var s := typ + Segment(k, q);
    assert s[..|typ|] == typ && s[|typ|] == ';';
    TypeHead(s, typ, |typ|);
    LastSegment(s, typ, k, q);
  }

  /** A quoted value that runs to the end of the input without its closing quote fails the parameter loop. */
  lemma UnclosedQuote(typ: string, k: string, body: string)
    requires IsType(typ) && IsLower(typ) && ';' !in typ && !IsSpace(typ[0]) && !IsSpace(typ[|typ| - 1])
    requires IsToken(k) && forall i :: 0 <= i < |body| ==> IsQdText(body[i])
    ensures ParseSpec(typ + "; " + k + "=\"" + body) == Err(InvalidParameterFormat)
  {
    var s := typ + "; " + k + "=\"" + body;
    var p := |typ|;
    assert s[..p] == typ && s[p] == ';';
    TypeHead(s, typ, p);
    NoMatchAtUnclosed(s, typ, k, body);
    ParseParamsFails(s, p, map[]);
  }

  lemma NoMatchAtUnclosed(s: string, t: string, k: string, body: string)
    requires s == t + "; " + k + "=\"" + body
    requires IsToken(k) && forall i :: 0 <= i < |body| ==> IsQdText(body[i])
    ensures ScanParam(s, |t|) == None
  {
    var p := |t|;
    var e := p + 2 + |k|;
    assert s[p] == ';' && s[p + 1] == ' ' && s[e] == '=' && s[e + 1] == '"';
    forall i | p + 2 <= i < e ensures IsTChar(s[i]) { assert s[i] == k[i - (p + 2)]; }
    assert s[p + 2] == k[0];
    SkipSpacesExact(s, p + 1, p + 2);
    TokenEndExact(s, p + 2, e);
    SkipSpacesExact(s, e, e);
    SkipSpacesExact(s, e + 1, e + 1);
    forall i | e + 2 <= i < |s| ensures IsQdText(s[i]) { assert s[i] == body[i - (e + 2)]; }
    QuotedEndRunsOut(s, e + 2);
    assert ValueEnd(s, e + 1) == None;
    assert ScanValue(s, p + 2, e, e) == None;
  }

  /** A token parameter followed by a character that neither extends it nor starts another one fails the loop. */
  lemma TokenParameterThenJunk(typ: string, k: string, q: string, rest: string)
    requires IsType(typ) && IsLower(typ) && ';' !in typ && !IsSpace(typ[0]) && !IsSpace(typ[|typ| - 1])
    requires IsToken(k) && IsToken(q) && rest != [] && rest[0] != ' ' && rest[0] != ';' && !IsTChar(rest[0])
    ensures ParseSpec(typ + Segment(k, q) + rest) == Err(InvalidParameterFormat)
  {
    var s0 := typ + Segment(k, q);
    var s := s0 + rest;
    var p := |typ|;
    assert s0[..p] == typ && s[..p] == typ && s[p] == ';' && s[..|s0|] == s0 && s[|s0|] == rest[0];
    TypeHead(s, typ, p);
    var m := SegmentAtEnd(s0, typ, k, q);
    MatchExtends(s0, s, p, m);
    MatchIsWellPlaced(s, p, m);
    ScanParamComplete(s, p, m);
    ParseParamsStep(s, p, map[], m);
    ParseParamsFails(s, m.end, map[MatchName(s, m) := MatchValue(s, m)]);
  }

  /** A match that ends its input still matches once a character follows that cannot extend it. */
  lemma MatchExtends(s0: string, s: string, p: nat, m: ParamMatch)
    requires IsMatch(s0, p, m) && m.end == |s0| < |s| && s[..|s0|] == s0
    requires s[m.end] != ' ' && !IsTChar(s[m.end])
    ensures IsMatch(s, p, m)
  {
    forall i | 0 <= i < |s0| ensures s[i] == s0[i] { assert s[..|s0|][i] == s[i]; }
    assert s[m.nameStart..m.nameEnd] == s0[m.nameStart..m.nameEnd];
    assert s[m.valueStart..m.valueEnd] == s0[m.valueStart..m.valueEnd];
    if m.valueEnd < m.end { assert s[m.valueEnd] == s0[m.valueEnd]; }
  }

  /**
   * The media type of `s` is the lower-case type `typ` before the first `;` at
   * `index`, so `Parse` comes down to its parameter loop from there.
   */
  lemma TypeHead(s: string, typ: string, index: nat)
    requires |typ| == index < |s| && s[..index] == typ && s[index] == ';' && ';' !in typ
    requires IsType(typ) && IsLower(typ) && !IsSpace(typ[0]) && !IsSpace(typ[|typ| - 1])
    ensures ParseParams(s, index, map[]).Ok? ==> ParseSpec(s) == Ok(ContentType(typ, ParseParams(s, index, map[]).value))
    ensures ParseParams(s, index, map[]).Err? ==> ParseSpec(s) == Err(InvalidParameterFormat)
  {
    forall k | 0 <= k < index ensures s[k] != ';' { assert s[k] == typ[k]; }
    IndexOfAt(s, ';', index);
    assert Head(s) == typ;
    TrimSpaceNoop(typ);
    ToLowerLowers(typ);
  }

  /** A segment of a token name and a token value at the end of the input is one match of `paramRegExp`. */
  lemma SegmentAtEnd(s: string, t: string, k: string, q: string) returns (m: ParamMatch)
    requires s == t + Segment(k, q) && IsToken(k) && IsToken(q)
    ensures IsMatch(s, |t|, m) && m.end == |s|
    ensures s[m.nameStart..m.nameEnd] == k && s[m.valueStart..m.valueEnd] == q
  {
    m := SegmentMatch(|t|, k, q);
    assert s[|t|..|t| + |Segment(k, q)|] == Segment(k, q);
    SegmentMatches(s, |t|, k, q);
  }

  /** A segment of a token name and a token value at the end of the input ends the loop with its entry. */
  lemma LastSegment(s: string, t: string, k: string, q: string)
    requires s == t + Segment(k, q) && IsToken(k) && IsToken(q)
    ensures ParseParams(s, |t|, map[]) == Ok(map[ToLower(k) := q])
  {
    var m := SegmentAtEnd(s, t, k, q);
    LastMatch(s, |t|, m, map[]);
  }

  /** A match that runs to the end of the input ends the loop with its entry. */
  lemma LastMatch(s: string, p: nat, m: ParamMatch, acc: map<string, string>)
    requires IsMatch(s, p, m) && m.end == |s|
    ensures WellPlaced(s, m)
    ensures ParseParams(s, p, acc) == Ok(acc[MatchName(s, m) := MatchValue(s, m)])
  {
    MatchIsWellPlaced(s, p, m);
    ScanParamComplete(s, p, m);
    ParseParamsStep(s, p, acc, m);
  }
}
