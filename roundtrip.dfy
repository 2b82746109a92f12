/**
 * How `Parse` and `Format` fit together: a value `Format` writes is a value
 * `Parse` reads back, and on what `Parse` returns `Format` can only fail on a
 * parameter value.
 */
module RoundTrip {
  import opened Wrappers
  import opened GoStrings
  import opened Grammar
  import opened ParamScanner
  import opened Arraystring
  import opened ContentTypes
  import opened Parser
  import opened Formatter

  /** What `qstring` writes is a parameter value that `Parse` decodes back to the original. */
  lemma QStringDecodes(v: string)
    requires QString(v).Ok?
    ensures IsParamValue(QString(v).value)
    ensures DecodeValue(QString(v).value) == v
  {
    if IsToken(v) {
      TokenExcludes(v);
    } else {
      var q := QString(v).value;
      EscapeTextIsBody(v);
      UnescapeEscape(v);
      assert q[1..|q| - 1] == Escape(v);
    }
  }

  /** The rendering of a non-empty list of names is its first segment followed by the rendering of the rest. */
  lemma {:induction false} RenderCons(m: map<string, string>, ks: seq<string>)
    requires Named(m, ks) && ks != [] && RenderParams(m, ks).Ok?
    ensures Renders(m, ks[0]) && RenderParams(m, ks[1..]).Ok?
    ensures RenderParams(m, ks).value == Segment(ks[0], QString(m[ks[0]]).value) + RenderParams(m, ks[1..]).value
    decreases |ks|
  {
    var init := ks[..|ks| - 1];
    if |ks| == 1 {
      assert init == [] && ks[1..] == [];
    } else {
      assert Named(m, init);
      RenderCons(m, init);
      assert init[0] == ks[0];
      assert init[1..] == ks[1..][..|ks| - 2];
      assert ks[1..][|ks| - 2] == ks[|ks| - 1];
    }
  }

  /** A non-empty rendering starts with the `;` of its first segment. */
  lemma RenderStartsWithSemicolon(m: map<string, string>, ks: seq<string>)
    requires Named(m, ks) && ks != [] && RenderParams(m, ks).Ok?
    ensures RenderParams(m, ks).value != [] && RenderParams(m, ks).value[0] == ';'
  {
    RenderCons(m, ks);
  }

  /** The entries a rendering of the names `ks` carries: each name with its value. */
  ghost function Pairs(m: map<string, string>, ks: seq<string>): (r: seq<(string, string)>)
    requires Named(m, ks)
    ensures |r| == |ks|
    decreases |ks|
  {
    if ks == [] then [] else [(ks[0], m[ks[0]])] + Pairs(m, ks[1..])
  }

  lemma {:induction false} PairsAt(m: map<string, string>, ks: seq<string>, i: nat)
    requires Named(m, ks) && i < |ks|
    ensures Pairs(m, ks)[i] == (ks[i], m[ks[i]])
    decreases |ks|
  {
    if i > 0 {
      PairsAt(m, ks[1..], i - 1);
    }
  }

  /** The offsets of the match that covers the segment `Segment(k, q)` written at `p`. */
  function SegmentMatch(p: nat, k: string, q: string): ParamMatch {
    ParamMatch(p + 2, p + 2 + |k|, p + 2 + |k|, p + 3 + |k|, p + 3 + |k| + |q|, p + 3 + |k| + |q|)
  }

  /** A segment followed by the end of the input or by the `;` of the next one is one match of `paramRegExp`. */
  lemma SegmentMatches(s: string, p: nat, k: string, q: string)
    requires IsToken(k) && IsParamValue(q)
    requires p + |Segment(k, q)| <= |s| && s[p..p + |Segment(k, q)|] == Segment(k, q)
    requires p + |Segment(k, q)| == |s| || s[p + |Segment(k, q)|] == ';'
    ensures IsMatch(s, p, SegmentMatch(p, k, q))
    ensures s[p + 2..p + 2 + |k|] == k && s[p + 3 + |k|..p + 3 + |k| + |q|] == q
  {
    var seg := Segment(k, q);
    var m := SegmentMatch(p, k, q);
    assert seg == "; " + k + "=" + q;
    forall t | 0 <= t < |seg| ensures s[p + t] == seg[t] {
      assert s[p..p + |seg|][t] == s[p + t];
    }
    assert s[p] == seg[0] && s[p + 1] == seg[1] && s[p + 2 + |k|] == seg[2 + |k|];
    forall t | 0 <= t < |k| ensures s[p + 2..p + 2 + |k|][t] == k[t] {
      assert s[p + 2 + t] == seg[2 + t];
    }
    forall t | 0 <= t < |q| ensures s[p + 3 + |k|..p + 3 + |k| + |q|][t] == q[t] {
      assert s[p + 3 + |k| + t] == seg[3 + |k| + t];
    }
    assert s[m.nameStart..m.nameEnd] == k;
    assert s[m.valueStart..m.valueEnd] == q;
  }

  /** `Parse` reads one segment as the entry it was written from. */
  lemma SegmentParses(s: string, p: nat, next: nat, k: string, v: string, acc: map<string, string>)
    requires IsToken(k) && IsLower(k) && QString(v).Ok?
    requires next == p + |Segment(k, QString(v).value)| <= |s|
    requires s[p..next] == Segment(k, QString(v).value)
    requires next == |s| || s[next] == ';'
    ensures ParseParams(s, p, acc) == ParseParams(s, next, acc[k := v])
  {
    var q := QString(v).value;
    QStringDecodes(v);
    var mt := SegmentMatch(p, k, q);
    SegmentMatches(s, p, k, q);
    MatchIsWellPlaced(s, p, mt);
    ScanParamComplete(s, p, mt);
    MatchEntry(s, mt, k, q, v);
    ParseParamsStep(s, p, acc, mt);
  }

  lemma MatchEntry(s: string, mt: ParamMatch, k: string, q: string, v: string)
    requires WellPlaced(s, mt) && s[mt.nameStart..mt.nameEnd] == k && s[mt.valueStart..mt.valueEnd] == q
    requires IsLower(k) && IsParamValue(q) && DecodeValue(q) == v
    ensures MatchName(s, mt) == k && MatchValue(s, mt) == v
  {
    ToLowerLowers(k);
  }

  /** `Parse`'s parameter loop reads a rendering back as its entries. */
  lemma {:induction false} ParseRendered(s: string, p: nat, m: map<string, string>, ks: seq<string>, acc: map<string, string>)
    requires Named(m, ks) && RenderParams(m, ks).Ok?
    requires forall i :: 0 <= i < |ks| ==> IsLower(ks[i])
    requires p <= |s| && s[p..] == RenderParams(m, ks).value
    ensures ParseParams(s, p, acc) == Ok(Fold(acc, Pairs(m, ks)))
    decreases |ks|
  {
    if ks == [] {
      assert |s[p..]| == 0;
    } else {
      var next := ParseFirstSegment(s, p, m, ks, acc);
      var acc' := acc[ks[0] := m[ks[0]]];
      assert forall i :: 0 <= i < |ks[1..]| ==> IsLower(ks[1..][i]) by {
        assert forall i :: 0 <= i < |ks[1..]| ==> ks[1..][i] == ks[i + 1];
      }
      ParseRendered(s, next, m, ks[1..], acc');
      assert Pairs(m, ks) == [(ks[0], m[ks[0]])] + Pairs(m, ks[1..]);
      FoldCons(acc, (ks[0], m[ks[0]]), Pairs(m, ks[1..]));
    }
  }

  /** The loop reads the first segment of a rendering and goes on at the start of the second. */
  lemma ParseFirstSegment(s: string, p: nat, m: map<string, string>, ks: seq<string>, acc: map<string, string>) returns (next: nat)
    requires Named(m, ks) && ks != [] && RenderParams(m, ks).Ok? && IsLower(ks[0])
    requires p <= |s| && s[p..] == RenderParams(m, ks).value
    ensures Named(m, ks[1..]) && RenderParams(m, ks[1..]).Ok?
    ensures next <= |s| && s[next..] == RenderParams(m, ks[1..]).value
    ensures ParseParams(s, p, acc) == ParseParams(s, next, acc[ks[0] := m[ks[0]]])
  {
    next := FirstSegmentAt(s, p, m, ks);
    SegmentParses(s, p, next, ks[0], m[ks[0]], acc);
  }

  /** Where the first segment of a rendering sits in `s`, and that a `;` or the end follows it. */
  lemma FirstSegmentAt(s: string, p: nat, m: map<string, string>, ks: seq<string>) returns (next: nat)
    requires Named(m, ks) && ks != [] && RenderParams(m, ks).Ok?
    requires p <= |s| && s[p..] == RenderParams(m, ks).value
    ensures Renders(m, ks[0]) && Named(m, ks[1..]) && RenderParams(m, ks[1..]).Ok?
    ensures next == p + |Segment(ks[0], QString(m[ks[0]]).value)| <= |s|
    ensures s[p..next] == Segment(ks[0], QString(m[ks[0]]).value)
    ensures next == |s| || s[next] == ';'
    ensures s[next..] == RenderParams(m, ks[1..]).value
  {
    RenderCons(m, ks);
    var k := ks[0];
    var seg := Segment(k, QString(m[k]).value);
    var rest := RenderParams(m, ks[1..]).value;
    SplitRendering(s, p, seg, rest);
    assert Named(m, ks[1..]);
    if rest != [] {
      RenderStartsWithSemicolon(m, ks[1..]);
    }
    next := p + |seg|;
  }

  lemma SplitRendering(s: string, p: nat, seg: string, rest: string)
    requires p <= |s| && s[p..] == seg + rest
    ensures p + |seg| <= |s| && s[p..p + |seg|] == seg && s[p + |seg|..] == rest
    ensures rest != [] ==> s[p + |seg|] == rest[0]
  {
    assert s[p..p + |seg|] == s[p..][..|seg|];
    assert s[p + |seg|..] == s[p..][|seg|..];
  }

  /** Folding the entries of all the names of `m`, each listed once, gives back `m`. */
  lemma FoldPairsIsMap(m: map<string, string>, ks: seq<string>)
    requires Named(m, ks) && Distinct(ks)
    requires forall k :: k in m ==> k in ks
    ensures Fold(map[], Pairs(m, ks)) == m
  {
    var es := Pairs(m, ks);
    var r := Fold(map[], es);
    forall i | 0 <= i < |ks| ensures es[i] == (ks[i], m[ks[i]]) {
      PairsAt(m, ks, i);
    }
    forall k ensures k in r <==> k in m {
      FoldKeys(map[], es, k);
      if k in m {
        var i :| 0 <= i < |ks| && ks[i] == k;
        assert es[i].0 == k;
      }
    }
    forall k | k in m ensures r[k] == m[k] {
      var i :| 0 <= i < |ks| && ks[i] == k;
      FoldLastWins(map[], es, i);
    }
    assert r.Keys == m.Keys;
  }

  /** Strictly sorted names are distinct. */
  lemma StrictlySortedIsDistinct(s: seq<string>)
    requires StrictlySorted(s)
    ensures Distinct(s)
  {
    forall i, j | 0 <= i < j < |s| ensures s[i] != s[j] {
      StrLessIrreflexive(s[i]);
    }
  }

  /**
   * Round trip: when the type and every name are already lowercase and `Format`
   * succeeds, `Parse` of its output returns the same type and the same map.
   */
  lemma FormatThenParse(ct: ContentType)
    requires FormatSpec(ct).Ok?
    requires IsLower(ct.typ) && forall k :: k in ct.parameters ==> IsLower(k)
    ensures ParseSpec(FormatSpec(ct).value) == Ok(ct)
  {
    var ks := SortedKeys(ct.parameters.Keys);
    FormatOutput(ct, ks);
    ParseTypeAndParams(ct.typ, ct.parameters, ks);
  }

  /** What a successful `Format` writes: the type, then the rendering of the sorted names. */
  lemma FormatOutput(ct: ContentType, ks: seq<string>)
    requires FormatSpec(ct).Ok? && ks == SortedKeys(ct.parameters.Keys)
    ensures IsType(ct.typ) && Named(ct.parameters, ks) && RenderParams(ct.parameters, ks).Ok?
    ensures FormatSpec(ct).value == ct.typ + RenderParams(ct.parameters, ks).value
  {
    assert Named(ct.parameters, ks);
  }

  /** `Parse` of a lowercase type followed by the rendering of all the names of `m`, sorted, returns `m`. */
  lemma ParseTypeAndParams(typ: string, m: map<string, string>, ks: seq<string>)
    requires ks == SortedKeys(m.Keys) && IsType(typ) && IsLower(typ)
    requires forall k :: k in m ==> IsLower(k)
    requires Named(m, ks) && RenderParams(m, ks).Ok?
    ensures ParseSpec(typ + RenderParams(m, ks).value) == Ok(ContentType(typ, m))
  {
    var rendered := RenderParams(m, ks).value;
    TypeExcludes(typ);
    TrimSpaceNoop(typ);
    if ks == [] {
      assert m.Keys == {};
      assert typ + rendered == typ;
      ParseBareType(typ);
    } else {
      RenderStartsWithSemicolon(m, ks);
      ParseTypeThenParams(typ, rendered);
      assert forall i :: 0 <= i < |ks| ==> IsLower(ks[i]);
      ParseRendered(typ + rendered, |typ|, m, ks, map[]);
      StrictlySortedIsDistinct(ks);
      FoldPairsIsMap(m, ks);
    }
  }

  /** `Parse` of a lowercase media type alone returns it with no parameters. */
  lemma ParseBareType(typ: string)
    requires IsType(typ) && IsLower(typ) && TrimSpace(typ) == typ && ';' !in typ
    ensures ParseSpec(typ) == Ok(ContentType(typ, map[]))
  {
    ToLowerLowers(typ);
  }

  /** `Parse` of a lowercase media type followed by `;` reads the type and starts the loop at that `;`. */
  lemma ParseTypeThenParams(typ: string, rest: string)
    requires IsType(typ) && IsLower(typ) && TrimSpace(typ) == typ && ';' !in typ
    requires rest != [] && rest[0] == ';'
    ensures ParseParams(typ + rest, |typ|, map[]).Ok? ==>
      ParseSpec(typ + rest) == Ok(ContentType(typ, ParseParams(typ + rest, |typ|, map[]).value))
  {
    var out := typ + rest;
    assert out[|typ|] == ';';
    forall j | 0 <= j < |typ| ensures out[j] != ';' {
      assert out[j] == typ[j];
    }
    IndexOfAt(out, ';', |typ|);
    assert out[..|typ|] == typ;
    ToLowerLowers(typ);
  }

  /**
   * `Parse` returns a normal form: when `Format` accepts what `Parse` returned,
   * `Parse` of the formatted text gives the same value again.
   */
  lemma ParseFormatParse(s: string)
    requires ParseSpec(s).Ok? && FormatSpec(ParseSpec(s).value).Ok?
    ensures ParseSpec(FormatSpec(ParseSpec(s).value).value) == ParseSpec(s)
  {
    ParsedIsNormal(s);
    FormatThenParse(ParseSpec(s).value);
  }

  /** On what `Parse` returns, `Format` checks the type and the names in vain: it can only fail on a value. */
  lemma FormatParsedFailsOnValues(s: string)
    requires ParseSpec(s).Ok?
    ensures FormatSpec(ParseSpec(s).value).Err? ==> FormatSpec(ParseSpec(s).value).error == InvalidParameterValue
  {
    ParsedIsNormal(s);
    FormatTokensFailOnValues(ParseSpec(s).value);
  }

  /**
   * The escape class takes 0x7F but the text class does not: `\` followed by DEL
   * inside quotes decodes to a value that `qstring` refuses.
   */
  lemma EscapedDeleteDoesNotFormat()
    ensures IsQuotedString("\"\\\U{007F}\"")
    ensures DecodeValue("\"\\\U{007F}\"") == "\U{007F}"
    ensures QString("\U{007F}") == Err(InvalidParameterValue)
  {
    var q := "\"\\\U{007F}\"";
    assert q[1..|q| - 1] == "\\\U{007F}";
    assert Unescape("\\\U{007F}") == "\U{007F}";
    assert !IsTextChar('\U{007F}');
    assert IsQuotedBody("\\\U{007F}") by {
      assert "\\\U{007F}"[2..] == [];
    }
  }
}
