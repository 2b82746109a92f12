/** Quoted values from the parser's test cases, decoded as `Parse` decodes them. */
module DecodeCases {
  import opened Grammar
  import opened Parser

  /** `"UT\F-\\\"8\""`: the quotes come off and every backslash pair leaves its second character. */
  lemma EscapedPairsDecode()
    ensures DecodeValue("\"UT\\F-\\\\\\\"8\\\"\"") == "UTF-\\\"8\""
  {
    var raw := "\"UT\\F-\\\\\\\"8\\\"\"";
    var front, back := "UT\\F-", "\\\\\\\"8\\\"";
    assert raw == ['"'] + (front + back) + ['"'];
    assert raw[1..|raw| - 1] == front + back;
    FrontDecodes(back);
    assert Unescape(back) == "\\\"8\"";
  }

  /** `UT\F-` decodes to `UTF-` whatever follows it. */
  lemma FrontDecodes(t: string)
    ensures Unescape("UT\\F-" + t) == "UTF-" + Unescape(t)
  {
    UnescapePlain('-', t);
    UnescapePair('F', ['-'] + t);
    UnescapePlain('T', ['\\', 'F', '-'] + t);
    UnescapePlain('U', ['T', '\\', 'F', '-'] + t);
    assert "UT\\F-" + t == ['U'] + (['T'] + (['\\', 'F'] + (['-'] + t)));
  }
}
