/** `Objectstringstring`, the parameter map of a content type, and its `Keys`. */
module Objectstringstring {
  import opened Arraystring

  /**
   * `Keys`: a fresh slice of the map's keys, one per entry.  Go ranges over a map
   * in an unspecified order; the choice of the next key is left open here too.
   */
  method Keys(obj: map<string, string>) returns (keys: array<string>)
    ensures fresh(keys)
    ensures keys.Length == |obj|
    ensures forall k :: k in obj <==> k in keys[..]
    ensures Distinct(keys[..])
  {
    keys := new string[|obj|];
    var rest := obj.Keys;
    var n := 0;
    while rest != {}
      invariant n + |rest| == |obj|
      invariant rest <= obj.Keys
      invariant forall k :: k in obj <==> k in keys[..n] || k in rest
      invariant forall k :: k in keys[..n] ==> k !in rest
      invariant Distinct(keys[..n])
      decreases rest
    {
      var key :| key in rest;
      keys[n] := key;
      assert keys[..n + 1] == keys[..n] + [key];
      n := n + 1;
      rest := rest - {key};
    }
    assert keys[..] == keys[..n];
  }
}
