/**
 * The character classes of the codec's regular expressions (`tokenRegExp`,
 * `typeRegExp`, `textRegExp`, the quoted-string part of `paramRegExp`), and the
 * two rewritings done with `qescRegExp` and `quoteRegExp`.
 *
 * Where the source departs from RFC 7230, this module follows the source: the
 * "tab" of every class is U+000B (vertical tab), and the text class has no 0x7F.
 */
module Grammar {
  import opened GoStrings

  /** A `tchar`: a letter, a digit or one of ``!#$%&'*+-.^_`|~``. */
  predicate IsTChar(c: char) {
    || ('0' <= c <= '9')
    || ('A' <= c <= 'Z')
    || ('a' <= c <= 'z')
    || c == '!' || c == '#' || c == '$' || c == '%' || c == '&' || c == '\'' || c == '*'
    || c == '+' || c == '-' || c == '.' || c == '^' || c == '_' || c == '`' || c == '|' || c == '~'
  }

  /** `tokenRegExp`: one or more tchars. */
  predicate IsToken(s: string) {
    |s| > 0 && forall i :: 0 <= i < |s| ==> IsTChar(s[i])
  }

  /** `typeRegExp`: exactly `token "/" token`, nothing around it. */
  predicate IsType(s: string) {
    var i := IndexOf(s, '/');
    0 <= i && IsToken(s[..i]) && IsToken(s[i + 1..])
  }

  /** `s` is `token "/" token` with the slash at `i`. */
  ghost predicate SplitsAt(s: string, i: int) {
    0 <= i < |s| && s[i] == '/' && IsToken(s[..i]) && IsToken(s[i + 1..])
  }

  /** A slash that follows a token is the first slash. */
  lemma SlashAfterToken(s: string, j: int)
    requires 0 <= j < |s| && s[j] == '/' && IsToken(s[..j])
    ensures IndexOf(s, '/') == j
  {
    forall k | 0 <= k < j ensures s[k] != '/' {
      assert s[..j][k] == s[k];
    }
  }

  /** Two tokens joined by a slash make a media type. */
  lemma TokensMakeType(a: string, b: string)
    requires IsToken(a) && IsToken(b)
    ensures IsType(a + "/" + b)
  {
    var s := a + "/" + b;
    assert s[..|a|] == a && s[|a| + 1..] == b;
    assert SplitsAt(s, |a|);
    TypeSplits(s);
  }

  /** `IsType` holds exactly when the string splits as `token "/" token` at some slash. */
  lemma TypeSplits(s: string)
    ensures IsType(s) <==> exists i :: SplitsAt(s, i)
  {
    if exists i :: SplitsAt(s, i) {
      var i :| SplitsAt(s, i);
      SlashAfterToken(s, i);
    }
    if IsType(s) {
      assert SplitsAt(s, IndexOf(s, '/'));
    }
  }

  /** One character of `textRegExp`: U+000B, 0x20-0x7E, 0x80-0xFF. */
  predicate IsTextChar(c: char) {
    c == '\U{000B}' || (' ' <= c <= '~') || ('\U{0080}' <= c <= '\U{00FF}')
  }

  /** Every character is a text character; the empty string qualifies. */
  predicate AllText(s: string) {
    forall i :: 0 <= i < |s| ==> IsTextChar(s[i])
  }

  /** `qdtext` of `paramRegExp`: U+000B, 0x20, 0x21, 0x23-0x5B, 0x5D-0x7E, 0x80-0xFF. */
  predicate IsQdText(c: char) {
    || c == '\U{000B}' || c == ' ' || c == '!'
    || ('#' <= c <= '[') || (']' <= c <= '~') || ('\U{0080}' <= c <= '\U{00FF}')
  }

  /** The character after a backslash in a quoted pair, in `paramRegExp` and `qescRegExp`: U+000B, 0x20-0xFF. */
  predicate IsEscapable(c: char) {
    c == '\U{000B}' || (' ' <= c <= '\U{00FF}')
  }

  /** The inside of a quoted string: a run of qdtext characters and backslash pairs. */
  predicate IsQuotedBody(s: string)
    decreases |s|
  {
    || s == []
    || (IsQdText(s[0]) && IsQuotedBody(s[1..]))
    || (|s| >= 2 && s[0] == '\\' && IsEscapable(s[1]) && IsQuotedBody(s[2..]))
  }

  /** A quoted string: `"` body `"`. */
  predicate IsQuotedString(v: string) {
    |v| >= 2 && v[0] == '"' && v[|v| - 1] == '"' && IsQuotedBody(v[1..|v| - 1])
  }

  /** A parameter value as `paramRegExp` accepts it: a token or a quoted string. */
  predicate IsParamValue(v: string) {
    IsToken(v) || IsQuotedString(v)
  }

  /** `quoteRegExp` replacement: a backslash before every backslash and every `"`. */
  function Escape(s: string): (r: string)
    ensures |s| <= |r|
  {
    if s == [] then []
    else (if s[0] == '\\' || s[0] == '"' then ['\\', s[0]] else [s[0]]) + Escape(s[1..])
  }

  /** A string without backslashes or double quotes escapes to itself. */
  lemma {:induction false} EscapeVerbatim(s: string)
    requires forall i :: 0 <= i < |s| ==> s[i] != '\\' && s[i] != '"'
    ensures Escape(s) == s
    decreases |s|
  {
    if s != [] {
      EscapeVerbatim(s[1..]);
      assert s == [s[0]] + s[1..];
    }
  }

  /** Escaping works character by character, so it distributes over concatenation. */
  lemma {:induction false} EscapeAppend(a: string, b: string)
    ensures Escape(a + b) == Escape(a) + Escape(b)
    decreases |a|
  {
    if a == [] {
      assert a + b == b;
    } else {
      var h := if a[0] == '\\' || a[0] == '"' then ['\\', a[0]] else [a[0]];
      assert (a + b)[0] == a[0] && (a + b)[1..] == a[1..] + b;
      assert Escape(a + b) == h + Escape(a[1..] + b);
      EscapeAppend(a[1..], b);
      assert Escape(a) == h + Escape(a[1..]);
    }
  }

  /**
   * `qescRegExp` replacement, on any string: scanning from the left, every backslash
   * followed by an escapable character is dropped and the character kept.
   */
  function Unescape(s: string): (r: string)
    ensures |r| <= |s|
    decreases |s|
  {
    if s == [] then []
    else if |s| >= 2 && s[0] == '\\' && IsEscapable(s[1]) then [s[1]] + Unescape(s[2..])
    else [s[0]] + Unescape(s[1..])
  }

  /** A backslash pair `\X` with an escapable `X` decodes to `X`, whatever follows it. */
  lemma UnescapePair(c: char, t: string)
    requires IsEscapable(c)
    ensures Unescape(['\\', c] + t) == [c] + Unescape(t)
  {
    assert (['\\', c] + t)[2..] == t;
  }

  /** A character that does not start a backslash pair is kept as it is. */
  lemma UnescapePlain(c: char, t: string)
    requires c != '\\'
    ensures Unescape([c] + t) == [c] + Unescape(t)
  {
    assert ([c] + t)[1..] == t;
  }

  /** The qdtext class is the text class without `"` and backslash. */
  lemma QdTextIsText(c: char)
    ensures IsQdText(c) <==> IsTextChar(c) && c != '"' && c != '\\'
  {
  }

  /** Unescaping undoes escaping, for every string. */
  lemma {:induction false} UnescapeEscape(s: string)
    ensures Unescape(Escape(s)) == s
  {
    if s != [] {
      UnescapeEscape(s[1..]);
      var e := Escape(s);
      if s[0] == '\\' || s[0] == '"' {
        assert e == ['\\', s[0]] + Escape(s[1..]);
        assert e[2..] == Escape(s[1..]);
      } else {
        assert e == [s[0]] + Escape(s[1..]);
        assert e[1..] == Escape(s[1..]);
      }
    }
  }

  /** Escaped text is a well-formed quoted-string body. */
  lemma {:induction false} EscapeTextIsBody(s: string)
    requires AllText(s)
    ensures IsQuotedBody(Escape(s))
  {
    if s != [] {
      EscapeTextIsBody(s[1..]);
      var e := Escape(s);
      if s[0] == '\\' || s[0] == '"' {
        assert e == ['\\', s[0]] + Escape(s[1..]);
        assert e[2..] == Escape(s[1..]);
      } else {
        assert e == [s[0]] + Escape(s[1..]);
        assert e[1..] == Escape(s[1..]);
        QdTextIsText(s[0]);
      }
    }
  }

  /** No token contains `/`, `;`, `=`, `"`, a backslash or a space. */
  lemma TokenExcludes(s: string)
    requires IsToken(s)
    ensures '/' !in s && ';' !in s && '=' !in s && '"' !in s && '\\' !in s && ' ' !in s
  {
  }

  /** A media type holds no `;` and neither starts nor ends with white space. */
  lemma TypeExcludes(s: string)
    requires IsType(s)
    ensures ';' !in s && !IsSpace(s[0]) && !IsSpace(s[|s| - 1])
  {
    var i := IndexOf(s, '/');
    TokenExcludes(s[..i]);
    TokenExcludes(s[i + 1..]);
    assert s[0] == s[..i][0];
    assert s[|s| - 1] == s[i + 1..][|s| - i - 2];
    forall k | 0 <= k < |s| ensures s[k] != ';' {
      if k < i { assert s[k] == s[..i][k]; }
      else if k > i { assert s[k] == s[i + 1..][k - i - 1]; }
    }
  }

  /** Case folding keeps a token a token. */
  lemma ToLowerKeepsToken(s: string)
    requires IsToken(s)
    ensures IsToken(ToLower(s))
  {
  }

  /** Case folding keeps a media type a media type. */
  lemma ToLowerKeepsType(s: string)
    requires IsType(s)
    ensures IsType(ToLower(s))
  {
    var r := ToLower(s);
    TypeSplits(s);
    var i :| SplitsAt(s, i);
    assert r[..i] == ToLower(s[..i]);
    assert r[i + 1..] == ToLower(s[i + 1..]);
    ToLowerKeepsToken(s[..i]);
    ToLowerKeepsToken(s[i + 1..]);
    assert SplitsAt(r, i);
    TypeSplits(r);
  }
}
