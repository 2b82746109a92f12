/**
 * `Parse` of contenttype.go: the media type before the first `;`, then a
 * contiguous run of `paramRegExp` matches up to the end of the input.
 */
module Parser {
  import opened Wrappers
  import opened GoStrings
  import opened Grammar
  import opened ParamScanner
  import opened ContentTypes

  /** The text before the first `;`, or all of `s` when it has none. */
  function Head(s: string): (r: string)
    ensures r <= s && ';' !in r
    ensures r == s || s[|r|] == ';'
  {
    var index := IndexOf(s, ';');
    if index == -1 then s else s[..index]
  }

  /** The parameter name of a match, lowercased. */
  function MatchName(s: string, m: ParamMatch): string
    requires WellPlaced(s, m)
  {
    ToLower(s[m.nameStart..m.nameEnd])
  }

  /** A raw value as the map stores it: a quoted string loses its quotes and its escapes. */
  function DecodeValue(raw: string): (r: string)
    requires raw != [] && (raw[0] == '"' ==> |raw| >= 2)
    ensures raw[0] != '"' ==> r == raw
  {
    if raw[0] == '"' then Unescape(raw[1..|raw| - 1]) else raw
  }

  /** The decoded value of a match. */
  function MatchValue(s: string, m: ParamMatch): string
    requires WellPlaced(s, m)
  {
    DecodeValue(s[m.valueStart..m.valueEnd])
  }

  /**
   * The parameter loop from offset `p` with the entries `acc` gathered so far:
   * each match must start where the previous one ended, and the last must end
   * the input.
   */
  function ParseParams(s: string, p: nat, acc: map<string, string>): (r: Result<map<string, string>, ParseError>)
    requires p <= |s|
    ensures r.Err? ==> r.error == InvalidParameterFormat
    decreases |s| - p
  {
    if p == |s| then Ok(acc)
    else match ScanParam(s, p)
      case None => Err(InvalidParameterFormat)
      case Some(m) =>
        ParseParams(s, m.end, acc[MatchName(s, m) := MatchValue(s, m)])
  }

  /** One turn of the loop: a match at `p` records its entry and moves on to its end. */
  lemma ParseParamsStep(s: string, p: nat, acc: map<string, string>, m: ParamMatch)
    requires p < |s| && ScanParam(s, p) == Some(m)
    ensures ParseParams(s, p, acc) == ParseParams(s, m.end, acc[MatchName(s, m) := MatchValue(s, m)])
  {
  }

  /** What `Parse` returns for `s`. */
  function ParseSpec(s: string): (r: Result<ContentType, ParseError>)
  {
    var index := IndexOf(s, ';');
    var typ := TrimSpace(Head(s));
    if !IsType(typ) then Err(InvalidMediaType)
    else if index == -1 then Ok(ContentType(ToLower(typ), map[]))
    else match ParseParams(s, index, map[])
      case Err(e) => Err(e)
      case Ok(parameters) => Ok(ContentType(ToLower(typ), parameters))
  }

  /** A position where no parameter matches makes the rest fail. */
  lemma ParseParamsFails(s: string, p: nat, acc: map<string, string>)
    requires p < |s| && ScanParam(s, p).None?
    ensures ParseParams(s, p, acc) == Err(InvalidParameterFormat)
  {
  }

  /** `Parse`: the type check, then the loop over the parameters. */
  method Parse(str: string) returns (r: Result<ContentType, ParseError>)
    ensures r == ParseSpec(str)
  {
    var index := IndexOf(str, ';');
    var typ: string;
    if index != -1 {
      typ := TrimSpace(str[..index]);
    } else {
      typ := TrimSpace(str);
    }
    ParseSpecCases(str);
    if !IsType(typ) {
      return Err(InvalidMediaType);
    }
    typ := ToLower(typ);
    if index == -1 {
      return Ok(ContentType(typ, map[]));
    }
    var parameters := ParseParameters(str, index);
    if parameters.Err? {
      return Err(InvalidParameterFormat);
    }
    return Ok(ContentType(typ, parameters.value));
  }

  /** The loop of `Parse` that advances `index` match by match, from the first `;`. */
  method ParseParameters(str: string, index: nat) returns (r: Result<map<string, string>, ParseError>)
    requires index <= |str|
    ensures r == ParseParams(str, index, map[])
  {
    var parameters: map<string, string> := map[];
    var p: nat := index;
    while p < |str|
      invariant p <= |str|
      invariant ParseParams(str, p, parameters) == ParseParams(str, index, map[])
      decreases |str| - p
    {
      var m := ScanParam(str, p);
      if m.None? {
        ParseParamsFails(str, p, parameters);
        return Err(InvalidParameterFormat);
      }
      var key := ToLower(str[m.value.nameStart..m.value.nameEnd]);
      var value := str[m.value.valueStart..m.value.valueEnd];
      if value[0] == '"' {
        value := Unescape(value[1..|value| - 1]);
      }
      ParseParamsStep(str, p, parameters, m.value);
      assert key == MatchName(str, m.value) && value == MatchValue(str, m.value);
      parameters := parameters[key := value];
      p := m.value.end;
    }
    return Ok(parameters);
  }

  /** `ParseSpec` case by case, in the order `Parse` decides them. */
  lemma ParseSpecCases(s: string)
    ensures var index := IndexOf(s, ';');
      var typ := TrimSpace(if index != -1 then s[..index] else s);
      && (!IsType(typ) ==> ParseSpec(s) == Err(InvalidMediaType))
      && (IsType(typ) && index == -1 ==> ParseSpec(s) == Ok(ContentType(ToLower(typ), map[])))
      && (IsType(typ) && index != -1 && ParseParams(s, index, map[]).Err? ==> ParseSpec(s) == Err(InvalidParameterFormat))
      && (IsType(typ) && index != -1 && ParseParams(s, index, map[]).Ok? ==>
            ParseSpec(s) == Ok(ContentType(ToLower(typ), ParseParams(s, index, map[]).value)))
  {
  }

  /** Writes the entries into the map in order: a later entry for a name replaces an earlier one. */
  function Fold(acc: map<string, string>, es: seq<(string, string)>): (r: map<string, string>)
    decreases |es|
  {
    if es == [] then acc else Fold(acc[es[0].0 := es[0].1], es[1..])
  }

  /** The value a name ends up with is the one of its last entry. */
  lemma {:induction false} FoldLastWins(acc: map<string, string>, es: seq<(string, string)>, i: nat)
    requires i < |es|
    requires forall j :: i < j < |es| ==> es[j].0 != es[i].0
    ensures es[i].0 in Fold(acc, es) && Fold(acc, es)[es[i].0] == es[i].1
    decreases |es|
  {
    if i == 0 {
      FoldKeeps(acc[es[0].0 := es[0].1], es[1..], es[0].0);
    } else {
      FoldLastWins(acc[es[0].0 := es[0].1], es[1..], i - 1);
    }
  }

  /** A name no entry mentions keeps the value it had. */
  lemma {:induction false} FoldKeeps(acc: map<string, string>, es: seq<(string, string)>, k: string)
    requires k in acc
    requires forall j :: 0 <= j < |es| ==> es[j].0 != k
    ensures k in Fold(acc, es) && Fold(acc, es)[k] == acc[k]
    decreases |es|
  {
    if es != [] {
      FoldKeeps(acc[es[0].0 := es[0].1], es[1..], k);
    }
  }

  /** The names of the folded map: those of `acc` and those of the entries. */
  lemma {:induction false} FoldKeys(acc: map<string, string>, es: seq<(string, string)>, k: string)
    ensures k in Fold(acc, es) <==> k in acc || exists j :: 0 <= j < |es| && es[j].0 == k
    decreases |es|
  {
    if es != [] {
      FoldKeys(acc[es[0].0 := es[0].1], es[1..], k);
      if exists j :: 0 <= j < |es[1..]| && es[1..][j].0 == k {
        var j :| 0 <= j < |es[1..]| && es[1..][j].0 == k;
        assert es[j + 1].0 == k;
      }
      if exists j :: 0 <= j < |es| && es[j].0 == k {
        var j :| 0 <= j < |es| && es[j].0 == k;
        if j > 0 { assert es[1..][j - 1].0 == k; }
      }
    }
  }

  /** `ms` is a run of `paramRegExp` matches from `p`, each starting where the last ended, up to the end of `s`. */
  ghost predicate Tiles(s: string, p: nat, ms: seq<ParamMatch>)
    decreases |ms|
  {
    if ms == [] then p == |s| else IsMatch(s, p, ms[0]) && Tiles(s, ms[0].end, ms[1..])
  }

  /** The (lowercased name, decoded value) entries of a run of matches, in order. */
  ghost function Entries(s: string, p: nat, ms: seq<ParamMatch>): (r: seq<(string, string)>)
    requires Tiles(s, p, ms)
    ensures |r| == |ms|
    decreases |ms|
  {
    if ms == [] then []
    else
      MatchIsWellPlaced(s, p, ms[0]);
      [(MatchName(s, ms[0]), MatchValue(s, ms[0]))] + Entries(s, ms[0].end, ms[1..])
  }

  /** Soundness: when the loop succeeds, the input from `p` is tiled by matches `ms` and the map is their entries. */
  lemma {:induction false} ParseParamsSound(s: string, p: nat, acc: map<string, string>) returns (ms: seq<ParamMatch>)
    requires p <= |s| && ParseParams(s, p, acc).Ok?
    ensures Tiles(s, p, ms) && ParseParams(s, p, acc).value == Fold(acc, Entries(s, p, ms))
    decreases |s| - p
  {
    if p == |s| {
      ms := [];
    } else {
      var m := ScanParam(s, p).value;
      ScanParamSound(s, p);
      var acc' := acc[MatchName(s, m) := MatchValue(s, m)];
      var rest := ParseParamsSound(s, m.end, acc');
      TilesCons(s, p, m, rest);
      FoldCons(acc, (MatchName(s, m), MatchValue(s, m)), Entries(s, m.end, rest));
      ms := [m] + rest;
    }
  }

  lemma TilesCons(s: string, p: nat, m: ParamMatch, ms: seq<ParamMatch>)
    requires IsMatch(s, p, m) && WellPlaced(s, m) && Tiles(s, m.end, ms)
    ensures Tiles(s, p, [m] + ms)
    ensures Entries(s, p, [m] + ms) == [(MatchName(s, m), MatchValue(s, m))] + Entries(s, m.end, ms)
  {
    assert ([m] + ms)[0] == m && ([m] + ms)[1..] == ms;
  }

  lemma FoldCons(acc: map<string, string>, e: (string, string), es: seq<(string, string)>)
    ensures Fold(acc, [e] + es) == Fold(acc[e.0 := e.1], es)
  {
    assert ([e] + es)[0] == e && ([e] + es)[1..] == es;
  }

  /** Completeness: a tiling by matches makes the loop succeed with exactly their entries. */
  lemma {:induction false} ParseParamsComplete(s: string, p: nat, ms: seq<ParamMatch>, acc: map<string, string>)
    requires p <= |s| && Tiles(s, p, ms)
    ensures ParseParams(s, p, acc) == Ok(Fold(acc, Entries(s, p, ms)))
    decreases |ms|
  {
    if ms != [] {
      ScanParamComplete(s, p, ms[0]);
      ParseParamsComplete(s, ms[0].end, ms[1..], acc[MatchName(s, ms[0]) := MatchValue(s, ms[0])]);
    }
  }

  /** The loop fails with "invalid parameter format" exactly when no run of matches tiles the rest of the input. */
  lemma ParseParamsTiling(s: string, p: nat, acc: map<string, string>)
    requires p <= |s|
    ensures ParseParams(s, p, acc).Ok? ==> exists ms :: Tiles(s, p, ms)
    ensures (exists ms :: Tiles(s, p, ms)) ==> ParseParams(s, p, acc).Ok?
  {
    TiledSucceeds(s, p, acc);
    if ParseParams(s, p, acc).Ok? {
      var ms := ParseParamsSound(s, p, acc);
      assert Tiles(s, p, ms);
    }
  }

  lemma TiledSucceeds(s: string, p: nat, acc: map<string, string>)
    requires p <= |s|
    ensures forall ms :: Tiles(s, p, ms) ==> ParseParams(s, p, acc).Ok?
  {
    forall ms | Tiles(s, p, ms) ensures ParseParams(s, p, acc).Ok? {
      ParseParamsComplete(s, p, ms, acc);
    }
  }

  /** A successful loop never stops on a `;`: a match ends in a value character or a space. */
  lemma {:induction false} ParseParamsEndsClean(s: string, p: nat, acc: map<string, string>)
    requires p < |s| && ParseParams(s, p, acc).Ok?
    ensures s[|s| - 1] != ';'
    decreases |s| - p
  {
    var m := ScanParam(s, p).value;
    if m.end < |s| {
      ParseParamsEndsClean(s, m.end, acc[MatchName(s, m) := MatchValue(s, m)]);
    } else {
      ScanParamSound(s, p);
      MatchEndsClean(s, p, m);
    }
  }

  /** An input ending in `;` is refused, whatever comes before. */
  lemma TrailingSemicolonFails(s: string)
    requires s != [] && s[|s| - 1] == ';'
    ensures ParseSpec(s).Err?
  {
    var index := IndexOf(s, ';');
    if IsType(TrimSpace(Head(s))) && ParseParams(s, index, map[]).Ok? {
      ParseParamsEndsClean(s, index, map[]);
    }
  }

  /** The parameter names the loop adds are lowercase tokens. */
  lemma {:induction false} ParseParamsNames(s: string, p: nat, acc: map<string, string>)
    requires p <= |s| && ParseParams(s, p, acc).Ok?
    requires forall k :: k in acc ==> IsToken(k) && IsLower(k)
    ensures forall k :: k in ParseParams(s, p, acc).value ==> IsToken(k) && IsLower(k)
    decreases |s| - p
  {
    if p < |s| {
      var m := ScanParam(s, p).value;
      ScanParamSound(s, p);
      ToLowerKeepsToken(s[m.nameStart..m.nameEnd]);
      ToLowerLowers(s[m.nameStart..m.nameEnd]);
      ParseParamsNames(s, m.end, acc[MatchName(s, m) := MatchValue(s, m)]);
    }
  }

  /**
   * A parsed media type is the trimmed head lowercased, a valid `type/subtype`,
   * and every parameter name is a lowercase token.
   */
  lemma ParsedIsNormal(s: string)
    requires ParseSpec(s).Ok?
    ensures var ct := ParseSpec(s).value;
      && ct.typ == ToLower(TrimSpace(Head(s)))
      && IsType(ct.typ) && IsLower(ct.typ)
      && forall k :: k in ct.parameters ==> IsToken(k) && IsLower(k)
  {
    var typ := TrimSpace(Head(s));
    ToLowerKeepsType(typ);
    ToLowerLowers(typ);
    var index := IndexOf(s, ';');
    if index != -1 {
      ParseParamsNames(s, index, map[]);
    }
  }

  /** The type is checked first: the input is refused as a media type exactly when its trimmed head is not `type/subtype`. */
  lemma ParseTypeCheck(s: string)
    ensures ParseSpec(s) == Err(InvalidMediaType) <==> !IsType(TrimSpace(Head(s)))
    ensures ParseSpec(s).Err? && IsType(TrimSpace(Head(s))) ==> ParseSpec(s) == Err(InvalidParameterFormat)
  {
  }
}
