/**
 * `Format` and `qstring` of contenttype.go: the type, then `; name=value` for
 * every parameter in ascending name order, each value bare or quoted.
 */
module Formatter {
  import opened Wrappers
  import opened Grammar
  import opened Arraystring
  import opened Objectstringstring
  import opened ContentTypes

  /**
   * `qstring`: a token is written as it is; otherwise the value, when it is empty
   * or all text characters, is quoted with its backslashes and quotes escaped.
   */
  function QString(v: string): (r: Result<string, FormatError>)
    ensures r.Ok? <==> IsToken(v) || AllText(v)
    ensures r.Err? ==> r.error == InvalidParameterValue
    ensures IsToken(v) ==> r == Ok(v)
  {
    if IsToken(v) then Ok(v)
    else if |v| > 0 && !AllText(v) then Err(InvalidParameterValue)
    else Ok("\"" + Escape(v) + "\"")
  }

  /** One parameter as `Format` appends it. */
  function Segment(name: string, value: string): string {
    "; " + name + "=" + value
  }

  /** The parameter `k` of `m` passes both checks of the loop in `Format`. */
  predicate Renders(m: map<string, string>, k: string)
    requires k in m
  {
    IsToken(k) && QString(m[k]).Ok?
  }

  /** The error the loop in `Format` stops with at a parameter that does not render. */
  function RenderError(m: map<string, string>, k: string): FormatError
    requires k in m
  {
    if !IsToken(k) then InvalidParameterName else InvalidParameterValue
  }

  /** Every name of `ks` is a key of `m`. */
  predicate Named(m: map<string, string>, ks: seq<string>) {
    forall i :: 0 <= i < |ks| ==> ks[i] in m
  }

  /** The text the loop in `Format` appends for the names `ks`, in that order, or the error it stops with. */
  function RenderParams(m: map<string, string>, ks: seq<string>): (r: Result<string, FormatError>)
    requires Named(m, ks)
    ensures r.Err? ==> r.error != InvalidType
    decreases |ks|
  {
    if ks == [] then Ok("")
    else
      var k := ks[|ks| - 1];
      match RenderParams(m, ks[..|ks| - 1])
      case Err(e) => Err(e)
      case Ok(t) =>
        if !IsToken(k) then Err(InvalidParameterName)
        else match QString(m[k])
          case Err(e) => Err(e)
          case Ok(v) => Ok(t + Segment(k, v))
  }

  /** The loop succeeds exactly when every one of its parameters renders. */
  lemma {:induction false} RenderParamsOk(m: map<string, string>, ks: seq<string>)
    requires Named(m, ks)
    ensures RenderParams(m, ks).Ok? <==> forall i :: 0 <= i < |ks| ==> Renders(m, ks[i])
    decreases |ks|
  {
    if ks != [] {
      var init := ks[..|ks| - 1];
      RenderParamsOk(m, init);
      assert forall i :: 0 <= i < |init| ==> init[i] == ks[i];
    }
  }

  /** The loop stops with the error of the first parameter that does not render. */
  lemma {:induction false} RenderParamsFirstError(m: map<string, string>, ks: seq<string>, i: nat)
    requires Named(m, ks)
    requires i < |ks| && !Renders(m, ks[i])
    requires forall j :: 0 <= j < i ==> Renders(m, ks[j])
    ensures RenderParams(m, ks) == Err(RenderError(m, ks[i]))
    decreases |ks|
  {
    var init := ks[..|ks| - 1];
    if i < |ks| - 1 {
      assert init[i] == ks[i];
      assert forall j :: 0 <= j < i ==> init[j] == ks[j];
      RenderParamsFirstError(m, init, i);
    } else {
      RenderParamsOk(m, init);
      assert forall j :: 0 <= j < |init| ==> init[j] == ks[j];
    }
  }

  /** One more name that renders extends the text by its segment. */
  lemma RenderStep(m: map<string, string>, ks: seq<string>, i: nat, tail: string)
    requires Named(m, ks) && i < |ks| && RenderParams(m, ks[..i]) == Ok(tail) && Renders(m, ks[i])
    ensures RenderParams(m, ks[..i + 1]) == Ok(tail + Segment(ks[i], QString(m[ks[i]]).value))
  {
    assert ks[..i + 1][..i] == ks[..i];
  }

  /** A name that does not render stops the loop with its error. */
  lemma RenderStops(m: map<string, string>, ks: seq<string>, i: nat, tail: string)
    requires Named(m, ks) && i < |ks| && RenderParams(m, ks[..i]) == Ok(tail) && !Renders(m, ks[i])
    ensures RenderParams(m, ks) == Err(RenderError(m, ks[i]))
  {
    assert ks[..i + 1][..i] == ks[..i];
    RenderPrefixErr(m, ks, i + 1);
  }

  /** When every name is a token, the loop can only fail on a value. */
  lemma {:induction false} RenderTokensFailOnValues(m: map<string, string>, ks: seq<string>)
    requires Named(m, ks) && forall i :: 0 <= i < |ks| ==> IsToken(ks[i])
    ensures RenderParams(m, ks).Err? ==> RenderParams(m, ks).error == InvalidParameterValue
    decreases |ks|
  {
    if ks != [] {
      var init := ks[..|ks| - 1];
      assert forall i :: 0 <= i < |init| ==> init[i] == ks[i];
      RenderTokensFailOnValues(m, init);
    }
  }

  /** Once a prefix of the names fails, the whole loop fails the same way. */
  lemma {:induction false} RenderPrefixErr(m: map<string, string>, ks: seq<string>, i: nat)
    requires Named(m, ks)
    requires i <= |ks| && RenderParams(m, ks[..i]).Err?
    ensures RenderParams(m, ks) == RenderParams(m, ks[..i])
    decreases |ks| - i
  {
    if i < |ks| {
      assert ks[..i + 1][..i] == ks[..i];
      RenderPrefixErr(m, ks, i + 1);
    } else {
      assert ks[..i] == ks;
    }
  }

  /** What `Format` returns for `ct`: the type check, then the parameters in ascending name order. */
  ghost function FormatSpec(ct: ContentType): (r: Result<string, FormatError>)
  {
    if !IsType(ct.typ) then Err(InvalidType)
    else match RenderParams(ct.parameters, SortedKeys(ct.parameters.Keys))
      case Err(e) => Err(e)
      case Ok(t) => Ok(ct.typ + t)
  }

  /** `FormatSpec` of a valid type in terms of the sorted names `ks`. */
  lemma FormatSpecRenders(ct: ContentType, ks: seq<string>)
    requires IsType(ct.typ) && ks == SortedKeys(ct.parameters.Keys) && Named(ct.parameters, ks)
    ensures RenderParams(ct.parameters, ks).Ok? ==> FormatSpec(ct) == Ok(ct.typ + RenderParams(ct.parameters, ks).value)
    ensures RenderParams(ct.parameters, ks).Err? ==> FormatSpec(ct) == Err(RenderParams(ct.parameters, ks).error)
  {
  }

  lemma AppendAssoc(a: string, b: string, c: string)
    ensures a + b + c == a + (b + c)
  {
  }

  /**
   * `parameters.Keys().Sort()`: the names of `m`, each once, in ascending order.
   * Whichever order `Keys` yields them in, the sorted list is the same.
   */
  method SortedKeyList(m: map<string, string>) returns (keys: array<string>)
    ensures fresh(keys)
    ensures keys[..] == SortedKeys(m.Keys)
  {
    keys := Keys(m);
    ghost var listed := keys[..];
    Sort(keys);
    PermutationKeepsDistinct(keys[..], listed);
    SortedDistinctIsStrict(keys[..]);
    assert forall x :: x in keys[..] <==> x in multiset(listed);
    SortedListingIsSortedKeys(keys[..], m.Keys);
  }

  /**
   * `Format`: the key list from `Keys`, sorted, then one appended segment per key.
   * Whichever order `Keys` yields, the result is the same.
   */
  method Format(ct: ContentType) returns (r: Result<string, FormatError>)
    ensures r == FormatSpec(ct)
  {
    if !IsType(ct.typ) {
      return Err(InvalidType);
    }
    var result := ct.typ;
    var m := ct.parameters;
    var keys := SortedKeyList(m);
    ghost var ks := keys[..];
    assert Named(m, ks);
    FormatSpecRenders(ct, ks);
    ghost var tail := "";
    var i := 0;
    while i < keys.Length
      invariant i <= keys.Length && keys[..] == ks
      invariant result == ct.typ + tail
      invariant RenderParams(m, ks[..i]) == Ok(tail)
    {
      var param := keys[i];
      assert ks[i] == param && param in m;
      if !IsToken(param) {
        RenderStops(m, ks, i, tail);
        return Err(InvalidParameterName);
      }
      var value := QString(m[param]);
      if value.Err? {
        RenderStops(m, ks, i, tail);
        return Err(value.error);
      }
      result := result + ("; " + param + "=" + value.value);
      RenderStep(m, ks, i, tail);
      AppendAssoc(ct.typ, tail, Segment(param, value.value));
      tail := tail + Segment(param, value.value);
      i := i + 1;
    }
    assert ks[..i] == ks;
    return Ok(result);
  }

  /** `Format` fails on the type exactly when it is not `type/subtype`. */
  lemma FormatTypeCheck(ct: ContentType)
    ensures FormatSpec(ct) == Err(InvalidType) <==> !IsType(ct.typ)
  {
  }

  /** `Format` succeeds exactly when the type is `type/subtype` and every parameter renders. */
  lemma FormatOk(ct: ContentType)
    ensures FormatSpec(ct).Ok? ==> IsType(ct.typ) && forall k :: k in ct.parameters ==> Renders(ct.parameters, k)
    ensures IsType(ct.typ) && (forall k :: k in ct.parameters ==> Renders(ct.parameters, k)) ==> FormatSpec(ct).Ok?
  {
    var m := ct.parameters;
    var ks := SortedKeys(m.Keys);
    RenderParamsOk(m, ks);
    forall k | k in m ensures exists i :: 0 <= i < |ks| && ks[i] == k {
      assert k in ks;
    }
  }

  /** With a valid type and token names, `Format` can only fail on a value. */
  lemma FormatTokensFailOnValues(ct: ContentType)
    requires IsType(ct.typ) && forall k :: k in ct.parameters ==> IsToken(k)
    ensures FormatSpec(ct).Err? ==> FormatSpec(ct).error == InvalidParameterValue
  {
    var ks := SortedKeys(ct.parameters.Keys);
    assert Named(ct.parameters, ks);
    RenderTokensFailOnValues(ct.parameters, ks);
  }
}
