/**
 * One match of `paramRegExp`, `; *(token) *= *("..."|token) *`, at a given
 * offset.  The repetitions in that expression never compete for a character (a
 * token holds no space or `=`, qdtext no `"` or backslash), so Go's leftmost-first
 * match is the maximal-munch scan written here.
 */
module ParamScanner {
  import opened Wrappers
  import opened Grammar

  /**
   * The sub-match offsets of one match starting at some `p`: the name occupies
   * `[nameStart, nameEnd)`, the `=` sits at `eq`, the raw value occupies
   * `[valueStart, valueEnd)`, and the match, trailing spaces included, ends at `end`.
   */
  datatype ParamMatch = ParamMatch(nameStart: nat, nameEnd: nat, eq: nat, valueStart: nat, valueEnd: nat, end: nat)

  ghost predicate SpacesBetween(s: string, i: nat, j: nat)
    requires i <= j <= |s|
  {
    forall k :: i <= k < j ==> s[k] == ' '
  }

  /**
   * `m` is the match of `paramRegExp` that Go's engine reports when matching at `p`:
   * every part in place, and the token value and the trailing spaces as long as
   * they can be.
   */
  ghost predicate IsMatch(s: string, p: nat, m: ParamMatch) {
    && p < m.nameStart <= m.nameEnd <= m.eq < m.valueStart <= m.valueEnd <= m.end <= |s|
    && s[p] == ';'
    && SpacesBetween(s, p + 1, m.nameStart)
    && IsToken(s[m.nameStart..m.nameEnd])
    && SpacesBetween(s, m.nameEnd, m.eq)
    && s[m.eq] == '='
    && SpacesBetween(s, m.eq + 1, m.valueStart)
    && IsParamValue(s[m.valueStart..m.valueEnd])
    && SpacesBetween(s, m.valueEnd, m.end)
    && (m.end == |s| || s[m.end] != ' ')
    && (IsToken(s[m.valueStart..m.valueEnd]) ==> m.valueEnd == |s| || !IsTChar(s[m.valueEnd]))
  }

  /** The offsets of `m` are in order inside `s`, and a quoted value spans at least its two quotes. */
  predicate WellPlaced(s: string, m: ParamMatch) {
    && m.nameStart <= m.nameEnd <= m.eq < m.valueStart < m.valueEnd <= m.end <= |s|
    && (s[m.valueStart] == '"' ==> m.valueStart + 2 <= m.valueEnd)
  }

  /** A match is well placed. */
  lemma MatchIsWellPlaced(s: string, p: nat, m: ParamMatch)
    requires IsMatch(s, p, m)
    ensures WellPlaced(s, m)
  {
    assert s[m.valueStart] == s[m.valueStart..m.valueEnd][0];
  }

  /** The end of the run of spaces starting at `i`. */
  function SkipSpaces(s: string, i: nat): (j: nat)
    requires i <= |s|
    ensures i <= j <= |s|
    decreases |s| - i
  {
    if i == |s| || s[i] != ' ' then i else SkipSpaces(s, i + 1)
  }

  /** `SkipSpaces` stops at the first character that is not a space. */
  lemma {:induction false} SkipSpacesStops(s: string, i: nat)
    requires i <= |s|
    ensures SpacesBetween(s, i, SkipSpaces(s, i))
    ensures SkipSpaces(s, i) == |s| || s[SkipSpaces(s, i)] != ' '
    decreases |s| - i
  {
    if i < |s| && s[i] == ' ' { SkipSpacesStops(s, i + 1); }
  }

  /** The end of the run of tchars starting at `i`. */
  function TokenEnd(s: string, i: nat): (j: nat)
    requires i <= |s|
    ensures i <= j <= |s|
    decreases |s| - i
  {
    if i == |s| || !IsTChar(s[i]) then i else TokenEnd(s, i + 1)
  }

  /** `TokenEnd` stops at the first character that is not a tchar. */
  lemma {:induction false} TokenEndStops(s: string, i: nat)
    requires i <= |s|
    ensures forall k :: i <= k < TokenEnd(s, i) ==> IsTChar(s[k])
    ensures TokenEnd(s, i) == |s| || !IsTChar(s[TokenEnd(s, i)])
    decreases |s| - i
  {
    if i < |s| && IsTChar(s[i]) { TokenEndStops(s, i + 1); }
  }

  /** Scans the body of a quoted string from `i`, just after the opening quote; the offset after the closing quote. */
  function QuotedEnd(s: string, i: nat): (r: Option<nat>)
    requires i <= |s|
    ensures r.Some? ==> i < r.value <= |s| && s[r.value - 1] == '"' && IsQuotedBody(s[i..r.value - 1])
    decreases |s| - i
  {
    if i == |s| then None
    else if s[i] == '"' then Some(i + 1)
    else if IsQdText(s[i]) then
      var r := QuotedEnd(s, i + 1);
      if r.Some? then assert s[i..r.value - 1][1..] == s[i + 1..r.value - 1]; r else r
    else if s[i] == '\\' && i + 1 < |s| && IsEscapable(s[i + 1]) then
      var r := QuotedEnd(s, i + 2);
      if r.Some? then assert s[i..r.value - 1][2..] == s[i + 2..r.value - 1]; r else r
    else None
  }

  /** A quoted string whose body runs to the end of the input without its closing `"` never ends. */
  lemma {:induction false} QuotedEndRunsOut(s: string, i: nat)
    requires i <= |s| && forall k :: i <= k < |s| ==> IsQdText(s[k])
    ensures QuotedEnd(s, i) == None
    decreases |s| - i
  {
    if i < |s| { QuotedEndRunsOut(s, i + 1); }
  }

  /** The raw value starting at `v`: a quoted string or a token; its end offset. */
  function ValueEnd(s: string, v: nat): (r: Option<nat>)
    requires v <= |s|
    ensures r.Some? ==> v < r.value <= |s| && IsParamValue(s[v..r.value])
    ensures r.Some? && s[v] == '"' ==> v + 2 <= r.value
    ensures r.Some? && IsToken(s[v..r.value]) ==> r.value == |s| || !IsTChar(s[r.value])
  {
    if v < |s| && s[v] == '"' then
      var e := QuotedEnd(s, v + 1);
      if e.Some? then QuotedSlice(s, v, e.value); e else None
    else
      var e := TokenEnd(s, v);
      if e == v then None else TokenEndStops(s, v); TokenSlice(s, v, e); Some(e)
  }

  lemma QuotedSlice(s: string, v: nat, e: nat)
    requires v + 1 < e <= |s| && s[v] == '"' && s[e - 1] == '"' && IsQuotedBody(s[v + 1..e - 1])
    ensures IsQuotedString(s[v..e]) && !IsToken(s[v..e])
  {
    var t := s[v..e];
    assert t[0] == '"' && t[|t| - 1] == '"';
    SliceOfSlice(s, v, e, 1, |t| - 1);
  }

  lemma TokenSlice(s: string, v: nat, e: nat)
    requires v < e <= |s| && forall k :: v <= k < e ==> IsTChar(s[k])
    ensures IsToken(s[v..e])
  {
    forall k | 0 <= k < e - v ensures IsTChar(s[v..e][k]) { assert s[v..e][k] == s[v + k]; }
  }

  /** Matches `paramRegExp` at offset `p`, or fails; a match always makes progress. */
  function ScanParam(s: string, p: nat): (r: Option<ParamMatch>)
    requires p <= |s|
    ensures r.Some? ==> p < |s| && s[p] == ';' && p < r.value.nameStart && WellPlaced(s, r.value)
  {
    if p < |s| && s[p] == ';' then ScanName(s, SkipSpaces(s, p + 1)) else None
  }

  /** The rest of a match once the spaces after `;` are skipped: the name, then `=`. */
  function ScanName(s: string, nameStart: nat): (r: Option<ParamMatch>)
    requires nameStart <= |s|
    ensures r.Some? ==> r.value.nameStart == nameStart && WellPlaced(s, r.value)
  {
    var nameEnd := TokenEnd(s, nameStart);
    var eq := SkipSpaces(s, nameEnd);
    if nameStart < nameEnd && eq < |s| && s[eq] == '=' then ScanValue(s, nameStart, nameEnd, eq) else None
  }

  /** The rest of a match after the `=` at `eq`: the value and the spaces after it. */
  function ScanValue(s: string, nameStart: nat, nameEnd: nat, eq: nat): (r: Option<ParamMatch>)
    requires nameStart < nameEnd <= eq < |s|
    ensures r.Some? ==> r.value.nameStart == nameStart && r.value.nameEnd == nameEnd && r.value.eq == eq
    ensures r.Some? ==> WellPlaced(s, r.value)
  {
    var valueStart := SkipSpaces(s, eq + 1);
    match ValueEnd(s, valueStart)
    case None => None
    case Some(valueEnd) => Some(ParamMatch(nameStart, nameEnd, eq, valueStart, valueEnd, SkipSpaces(s, valueEnd)))
  }

  /** Soundness: what `ScanParam` reports is a match of `paramRegExp` at `p`. */
  lemma ScanParamSound(s: string, p: nat)
    requires p <= |s| && ScanParam(s, p).Some?
    ensures IsMatch(s, p, ScanParam(s, p).value)
  {
    var m := ScanParam(s, p).value;
    assert m == ScanName(s, SkipSpaces(s, p + 1)).value;
    SkipSpacesStops(s, p + 1);
    ScanNameSound(s, m.nameStart);
  }

  /** What `ScanName` reports has the name, the `=` and the value in place. */
  lemma ScanNameSound(s: string, nameStart: nat)
    requires nameStart <= |s| && ScanName(s, nameStart).Some?
    ensures var m := ScanName(s, nameStart).value;
      && IsToken(s[m.nameStart..m.nameEnd])
      && SpacesBetween(s, m.nameEnd, m.eq)
      && s[m.eq] == '='
      && SpacesBetween(s, m.eq + 1, m.valueStart)
      && IsParamValue(s[m.valueStart..m.valueEnd])
      && SpacesBetween(s, m.valueEnd, m.end)
      && (m.end == |s| || s[m.end] != ' ')
      && (IsToken(s[m.valueStart..m.valueEnd]) ==> m.valueEnd == |s| || !IsTChar(s[m.valueEnd]))
  {
    var m := ScanName(s, nameStart).value;
    assert m == ScanValue(s, nameStart, m.nameEnd, m.eq).value;
    TokenEndStops(s, nameStart);
    TokenSlice(s, nameStart, m.nameEnd);
    SkipSpacesStops(s, m.nameEnd);
    SkipSpacesStops(s, m.eq + 1);
    SkipSpacesStops(s, m.valueEnd);
  }

  lemma SliceOfSlice(s: string, a: nat, b: nat, c: nat, d: nat)
    requires a <= b <= |s| && c <= d <= b - a
    ensures s[a..b][c..d] == s[a + c..a + d]
  {
    assert forall k :: 0 <= k < d - c ==> s[a..b][c..d][k] == s[a + c..a + d][k];
  }

  lemma {:induction false} SkipSpacesExact(s: string, i: nat, j: nat)
    requires i <= j <= |s| && SpacesBetween(s, i, j) && (j == |s| || s[j] != ' ')
    ensures SkipSpaces(s, i) == j
    decreases j - i
  {
    if i < j { SkipSpacesExact(s, i + 1, j); }
  }

  lemma {:induction false} TokenEndExact(s: string, i: nat, j: nat)
    requires i <= j <= |s| && (forall k :: i <= k < j ==> IsTChar(s[k])) && (j == |s| || !IsTChar(s[j]))
    ensures TokenEnd(s, i) == j
    decreases j - i
  {
    if i < j { TokenEndExact(s, i + 1, j); }
  }

  /** A well-formed body followed by `"` ends the quoted string right there. */
  lemma {:induction false} QuotedEndExact(s: string, i: nat, j: nat)
    requires i <= j < |s| && IsQuotedBody(s[i..j]) && s[j] == '"'
    ensures QuotedEnd(s, i) == Some(j + 1)
    decreases j - i
  {
    if i < j {
      var t := s[i..j];
      assert t[0] == s[i];
      if IsQdText(t[0]) && IsQuotedBody(t[1..]) {
        assert t[1..] == s[i + 1..j];
        QuotedEndExact(s, i + 1, j);
      } else {
        assert t[1] == s[i + 1] && t[2..] == s[i + 2..j];
        QuotedEndExact(s, i + 2, j);
      }
    }
  }

  lemma ValueEndExact(s: string, v: nat, e: nat)
    requires v <= e <= |s| && IsParamValue(s[v..e])
    requires IsToken(s[v..e]) ==> e == |s| || !IsTChar(s[e])
    ensures ValueEnd(s, v) == Some(e)
  {
    if IsQuotedString(s[v..e]) {
      QuotedValueEnd(s, v, e);
    } else {
      TokenValueEnd(s, v, e);
    }
  }

  lemma QuotedValueEnd(s: string, v: nat, e: nat)
    requires v <= e <= |s| && IsQuotedString(s[v..e])
    ensures ValueEnd(s, v) == Some(e)
  {
    var t := s[v..e];
    assert |t| == e - v;
    assert s[v] == t[0];
    SliceOfSlice(s, v, e, 1, |t| - 1);
    QuotedEndExact(s, v + 1, e - 1);
  }

  lemma TokenValueEnd(s: string, v: nat, e: nat)
    requires v <= e <= |s| && IsToken(s[v..e]) && (e == |s| || !IsTChar(s[e]))
    ensures ValueEnd(s, v) == Some(e)
  {
    var t := s[v..e];
    forall k | v <= k < e ensures IsTChar(s[k]) { assert s[k] == t[k - v]; }
    assert s[v] == t[0];
    TokenEndExact(s, v, e);
  }

  /** The scan of the name part of a match stops where the match says. */
  lemma NameScanned(s: string, p: nat, m: ParamMatch)
    requires IsMatch(s, p, m)
    ensures SkipSpaces(s, p + 1) == m.nameStart
    ensures TokenEnd(s, m.nameStart) == m.nameEnd
    ensures SkipSpaces(s, m.nameEnd) == m.eq
  {
    var name := s[m.nameStart..m.nameEnd];
    assert s[m.nameStart] == name[0];
    SkipSpacesExact(s, p + 1, m.nameStart);
    forall k | m.nameStart <= k < m.nameEnd ensures IsTChar(s[k]) { assert s[k] == name[k - m.nameStart]; }
    if m.nameEnd < m.eq { assert s[m.nameEnd] == ' '; }
    TokenEndExact(s, m.nameStart, m.nameEnd);
    SkipSpacesExact(s, m.nameEnd, m.eq);
  }

  /** The scan of the value part of a match stops where the match says. */
  lemma ValueScanned(s: string, p: nat, m: ParamMatch)
    requires IsMatch(s, p, m)
    ensures SkipSpaces(s, m.eq + 1) == m.valueStart
    ensures ValueEnd(s, m.valueStart) == Some(m.valueEnd)
    ensures SkipSpaces(s, m.valueEnd) == m.end
  {
    var value := s[m.valueStart..m.valueEnd];
    assert s[m.valueStart] == value[0];
    SkipSpacesExact(s, m.eq + 1, m.valueStart);
    ValueEndExact(s, m.valueStart, m.valueEnd);
    SkipSpacesExact(s, m.valueEnd, m.end);
  }

  /** Completeness: whatever `paramRegExp` matches at `p` is what `ScanParam` reports. */
  lemma ScanParamComplete(s: string, p: nat, m: ParamMatch)
    requires IsMatch(s, p, m)
    ensures ScanParam(s, p) == Some(m)
  {
    NameScanned(s, p, m);
    ValueScanned(s, p, m);
    ScanParamSteps(s, p, m);
  }

  /** `ScanParam` succeeds once each of its steps lands where `m` says. */
  lemma ScanParamSteps(s: string, p: nat, m: ParamMatch)
    requires p < |s| && s[p] == ';'
    requires SkipSpaces(s, p + 1) == m.nameStart
    requires TokenEnd(s, m.nameStart) == m.nameEnd && m.nameStart < m.nameEnd
    requires SkipSpaces(s, m.nameEnd) == m.eq && m.eq < |s| && s[m.eq] == '='
    requires SkipSpaces(s, m.eq + 1) == m.valueStart
    requires ValueEnd(s, m.valueStart) == Some(m.valueEnd)
    requires SkipSpaces(s, m.valueEnd) == m.end
    ensures ScanParam(s, p) == Some(m)
  {
    assert ScanValue(s, m.nameStart, m.nameEnd, m.eq) == Some(m);
    assert ScanName(s, m.nameStart) == Some(m);
  }

  /** A match never ends on a `;`: its last character is a space, a tchar or a closing `"`. */
  lemma MatchEndsClean(s: string, p: nat, m: ParamMatch)
    requires IsMatch(s, p, m)
    ensures s[m.end - 1] != ';'
  {
    if m.valueEnd < m.end {
      assert s[m.end - 1] == ' ';
    } else {
      var v := s[m.valueStart..m.valueEnd];
      assert s[m.end - 1] == v[|v| - 1];
    }
  }

  /** There is at most one match at a given offset. */
  lemma MatchIsUnique(s: string, p: nat, m1: ParamMatch, m2: ParamMatch)
    requires IsMatch(s, p, m1) && IsMatch(s, p, m2)
    ensures m1 == m2
  {
    ScanParamComplete(s, p, m1);
    ScanParamComplete(s, p, m2);
  }
}
