/** Values from the formatter's test cases, rendered by `qstring`. */
module QStringCases {
  import opened Wrappers
  import opened Grammar
  import opened ContentTypes
  import opened Formatter

  /** A token value is written bare. */
  lemma TokenIsBare()
    ensures QString("utf-8") == Ok("utf-8")
  {
    assert IsToken("utf-8");
  }

  /** The empty value is written as an empty quoted string. */
  lemma EmptyIsQuoted()
    ensures QString("") == Ok("\"\"")
  {
    assert Escape("") == "";
    assert "\"" + "" + "\"" == "\"\"";
  }

  /** A value holding NUL is refused. */
  lemma NulIsRefused()
    ensures QString("bar\U{0000}") == Err(InvalidParameterValue)
  {
    assert !IsTextChar("bar\U{0000}"[3]);
  }
}
