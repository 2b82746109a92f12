# contenttype — a Dafny model of the media-type codec

The Go package `contenttype` reads and writes HTTP `Content-Type` values such as
`text/html; charset=utf-8`. It has two operations:
- `Parse` takes a header string to a lower-cased media type and a map of parameters.
- `Format` takes such a value back to a header string.

Six regular expressions shape both directions (contenttype.go:28-33). They describe four kinds of pattern:
- a type is `token "/" token`;
- a parameter is `; name = value`, where the value is a token or a quoted string;
- a quoted string's escapes are `\X`;
- the text class says what a value may hold.

The package defines a map type `Objectstringstring`, with `Keys`, and a slice type `Arraystring`, with `Len`, `Less` and `Swap` for sorting. `Format` uses both to write the parameters in name order.

This model follows the code:

- **Strings** are `seq<char>` that stand for valid UTF-8. Every offset the code computes falls on a character boundary: the one from `strings.Index` of `;`, and the match bounds of `paramRegExp`, whose classes consist of whole characters. So slicing by characters gives the same substrings as Go's slicing by bytes, though the numeric offsets differ once a character from U+0080 to U+00FF appears. Byte order on UTF-8 equals code-point order, so `Less` is the lexicographic order on characters.
- **Regular expressions** are predicates: `Grammar.IsToken`, `Grammar.IsType`, `Grammar.AllText`, `Grammar.IsQuotedString`. The scan of `paramRegExp` is a maximal-munch scanner, `ParamScanner.ScanParam`. It is proved sound, complete and unique against the declarative `ParamScanner.IsMatch`.
- **`Parse`** is a method with the source's loop, proved equal to `Parser.ParseSpec`. The source compares each match start with the end of the previous match, then checks the end of input. That pair is modelled as "at `p`: stop at the end, or scan a parameter at `p`, or fail".
- **`Format`** is a method that lists the keys in an array (`Objectstringstring.Keys`), sorts them in place by `Less` and `Swap` (`Arraystring.Sort`), then appends one segment per parameter. It is proved equal to `Formatter.FormatSpec`, which renders the parameters in the order of the ghost `Arraystring.SortedKeys`.
- **Errors** are datatypes: `ParseError` = `InvalidMediaType | InvalidParameterFormat`, and `FormatError` = `InvalidType | InvalidParameterName | InvalidParameterValue`.

The character classes are those of the source, not of RFC 7231:
- the "tab" in every class is U+000B;
- the optional white space around `=` and `;` is the space character only;
- the text class leaves out U+007F, while an escape `\X` admits it.

Because of the last point, `Parse` can produce a value that `Format` refuses. `RoundTrip.EscapedDeleteDoesNotFormat` exhibits the case. The code spells out the two classes separately, and nothing in it shows which one was meant. Whether the mismatch is intended is an open question, so the case is recorded as a property of the code as written.

## Model

| member | source | states |
|---|---|---|
| GoStrings.IndexOf | contenttype.go:106 | -1 exactly when the character is absent; otherwise the position of its first occurrence |
| GoStrings.IsSpace | contenttype.go:108-112 | the `unicode.IsSpace` set `strings.TrimSpace` removes: U+0009-U+000D, space, U+0085, U+00A0 and the other Unicode White_Space code points; GoStrings.TrimSpace is stated in terms of it |
| GoStrings.TrimSpace | contenttype.go:108-112 | the result is a slice of the input with only white space (the `unicode.IsSpace` set) before and after it, and it neither starts nor ends with white space |
| GoStrings.TrimSpaceNoop | contenttype.go:108-112 | a string that neither starts nor ends with white space is unchanged by trimming |
| GoStrings.ToLower | contenttype.go:118 | same length, and each character is mapped through ASCII lower-casing |
| GoStrings.ToLowerLowers | contenttype.go:127 | lowering yields a lower-case string, and is the identity on one already lower case |
| Grammar.IsToken | contenttype.go:30 | `tokenRegExp`: a non-empty run of token characters; its properties are stated by Grammar.TokenExcludes and Grammar.ToLowerKeepsToken |
| Grammar.IsType | contenttype.go:33 | `typeRegExp`: the text before the first `/` and the text after it are tokens; proved equal to "token, `/`, token at some slash" by Grammar.TypeSplits |
| Grammar.TokensMakeType | contenttype.go:33 | two tokens joined by `/` form a type |
| Grammar.AllText | contenttype.go:29 | `textRegExp` without its non-empty requirement: every character is in the text class; Formatter.QString adds the empty case as the code does |
| Grammar.IsQuotedBody | contenttype.go:28 | the inside of the quoted alternative of `paramRegExp`: a run of quoted-text characters and backslash pairs; Grammar.EscapeTextIsBody shows escaped text is one |
| Grammar.IsQuotedString | contenttype.go:28 | a `"`, a quoted body, and a closing `"`; ParamScanner.QuotedEnd finds its end |
| Grammar.TypeSplits | contenttype.go:33 | a string is a type iff it is a token, then a `/` at some position, then a token |
| Grammar.SlashAfterToken | contenttype.go:33 | the slash that follows a leading token is the first slash of the string |
| Grammar.TypeExcludes | contenttype.go:33 | a type holds no `;` and neither starts nor ends with white space |
| Grammar.TokenExcludes | contenttype.go:30 | a token holds none of `/ ; = " \` and no space |
| Grammar.ToLowerKeepsType | contenttype.go:114-118 | lowering a type gives a type |
| Grammar.ToLowerKeepsToken | contenttype.go:127 | lowering a token gives a token |
| Grammar.QdTextIsText | contenttype.go:28-29 | the quoted-text class equals the text class without `"` and `\` |
| Grammar.UnescapeEscape | contenttype.go:31-32 | removing the `\X` escapes (`qescRegExp`) undoes inserting them (`quoteRegExp`), for every string |
| Grammar.EscapeTextIsBody | contenttype.go:28-32 | escaping a text string yields a body that `paramRegExp` accepts between quotes |
| Grammar.Escape | contenttype.go:160-162 | `quoteRegExp` replacement: a backslash before every `\` and `"`; never shorter than its input. Its partner is Grammar.UnescapeEscape (unescaping undoes it) and Grammar.EscapeTextIsBody (the result is a quoted body) |
| Grammar.EscapeVerbatim | contenttype.go:160-162 | a string without `\` or `"` escapes to itself |
| Grammar.EscapeAppend | contenttype.go:160-162 | escaping distributes over concatenation |
| Grammar.Unescape | contenttype.go:131-135 | `qescRegExp` replacement, scanning left to right: each `\X` with `X` in the escape class becomes `X`; never longer than its input. Its partner is Grammar.UnescapeEscape (it undoes Escape) |
| Grammar.UnescapePair | contenttype.go:131-135 | a backslash pair `\X` with `X` in the escape class decodes to `X`, whatever follows |
| Grammar.UnescapePlain | contenttype.go:131-135 | a character that does not start a backslash pair is kept, whatever follows |
| ParamScanner.IsMatch | contenttype.go:28 | declarative match of `paramRegExp` at a position: `;`, spaces, a token name, spaces, `=`, spaces, a value, trailing spaces, with the token value and the trailing spaces maximal; ParamScanner.ScanParamSound, ParamScanner.ScanParamComplete and ParamScanner.MatchIsUnique tie it to the scanner |
| ParamScanner.QuotedEndRunsOut | contenttype.go:28 | a quoted value whose body runs to the end of the input without a closing `"` never ends, so it is no match |
| ParamScanner.SkipSpacesStops | contenttype.go:28 | the skip covers only spaces and stops at the end or at a non-space |
| ParamScanner.TokenEndStops | contenttype.go:28 | the token run covers only token characters and stops at the end or at a non-token character |
| ParamScanner.QuotedEnd | contenttype.go:28 | a found end closes a quote around a well-formed quoted body |
| ParamScanner.ValueEnd | contenttype.go:28 | a found value is a token or quoted string, at least two long when quoted, and a token value is not followed by a token character |
| ParamScanner.ScanParam | contenttype.go:28 | a found match starts with the `;` at the scan position and its offsets are well placed in the input |
| ParamScanner.ScanParamSound | contenttype.go:28 | every match the scanner finds satisfies the declarative `; *name *= *value *` pattern |
| ParamScanner.ScanParamComplete | contenttype.go:28 | every declarative match at a position is what the scanner returns there |
| ParamScanner.MatchIsUnique | contenttype.go:28 | at a position at most one declarative match exists; the pattern's repetitions never compete for a character, which is the informal reason the engine's leftmost-first match is this one |
| ParamScanner.MatchEndsClean | contenttype.go:28 | a match never ends with a `;` |
| ParamScanner.MatchIsWellPlaced | contenttype.go:121-128 | the submatch offsets of a match are ordered and lie in the input, so the slices the loop takes exist |
| Parser.Head | contenttype.go:106-112 | the part before the first `;` (or the whole string): a prefix with no `;`, followed by `;` or the end |
| Parser.DecodeValue | contenttype.go:130-136 | an unquoted value is kept as it is |
| Parser.ParseParams | contenttype.go:121-143 | the only error the parameter loop reports is "invalid parameter format" |
| Parser.Parse | contenttype.go:105-149 | the method, with its type check and parameter loop, returns exactly `ParseSpec` of its input |
| Parser.ParseParameters | contenttype.go:119-143 | the loop that advances `index` one match at a time returns exactly the parameter map or error of the specification |
| Parser.ParseSpecCases | contenttype.go:105-149 | the result case by case: invalid media type, a bare type, the loop's error, or the type with the loop's map |
| Parser.ParseTypeCheck | contenttype.go:114-116 | "invalid media type" exactly when the trimmed head is not a type; any other error is "invalid parameter format" |
| Parser.ParsedIsNormal | contenttype.go:109-127 | a parsed type is the lower-cased trimmed head, a lower-case type, and every parameter name is a lower-case token |
| Parser.FoldLastWins | contenttype.go:138 | a later parameter with the same name replaces an earlier one: the map holds the value of the last occurrence |
| Parser.FoldKeeps | contenttype.go:138 | a name the later entries do not mention keeps its earlier value |
| Parser.FoldKeys | contenttype.go:138 | the names of the map are the names before plus the names of the entries |
| Parser.ParseParamsSound | contenttype.go:121-143 | a successful loop read the rest of the input as a tiling of consecutive matches, and its map is the fold of their entries |
| Parser.ParseParamsComplete | contenttype.go:121-143 | any tiling of the rest of the input by matches makes the loop succeed with the fold of its entries |
| Parser.ParseParamsTiling | contenttype.go:121-143 | the loop succeeds iff the rest of the input is tiled by matches (both directions) |
| Parser.ParseParamsEndsClean | contenttype.go:141-143 | when parameters are read successfully, the input does not end with `;` |
| Parser.TrailingSemicolonFails | contenttype.go:141-143 | an input ending with `;` never parses |
| Parser.ParseParamsNames | contenttype.go:127 | every name the loop records is a lower-case token |
| Formatter.QString | contenttype.go:151-163 | succeeds iff the value is a token or all text (the empty value included); a token is returned bare; the only error is "invalid parameter value" |
| Formatter.RenderParams | contenttype.go:45-54 | a failing loop never reports "invalid type" |
| Formatter.RenderParamsOk | contenttype.go:45-54 | the loop succeeds iff every listed name is a token whose value `qstring` accepts |
| Formatter.RenderParamsFirstError | contenttype.go:45-54 | the loop stops with the error of the first parameter that fails, name checked before value |
| Formatter.RenderStep | contenttype.go:49-50 | one turn of the loop appends `"; " + name + "=" + value` to what the earlier turns wrote |
| Formatter.RenderStops | contenttype.go:46-53 | a failing turn ends the whole loop with that turn's error |
| Formatter.RenderPrefixErr | contenttype.go:45-54 | an error among the first names is the loop's error whatever follows |
| Formatter.RenderTokensFailOnValues | contenttype.go:46-53 | when every name is a token, the loop can only fail with "invalid parameter value" |
| Formatter.FormatSpecRenders | contenttype.go:38-57 | for a valid type, the output is the type followed by the rendering of the parameters in sorted name order, or that rendering's error |
| Formatter.SortedKeyList | contenttype.go:45 | `Keys().Sort()` yields a fresh array holding each parameter name once, in strictly increasing order |
| Formatter.Format | contenttype.go:38-57 | the method returns exactly `FormatSpec` of its argument |
| Formatter.FormatTypeCheck | contenttype.go:39-41 | "invalid type" exactly when the type field is not a type |
| Formatter.FormatOk | contenttype.go:38-57 | formatting succeeds iff the type is valid and every parameter has a token name and a value `qstring` accepts (both directions) |
| Formatter.FormatTokensFailOnValues | contenttype.go:46-53 | with a valid type and token names, formatting can only fail on a value |
| Objectstringstring.Keys | gotemplate_Objectstringstring.go:11-17 | a fresh array as long as the map, holding exactly the map's names, each once |
| Arraystring.Len | def.go:3-5 | the number of elements of the array |
| Arraystring.Less | def.go:7-9 | `Less(a, i, j)` is `StrLess(a[i], a[j])`, Go's `<` on the two elements |
| Arraystring.StrLess | def.go:8 | Go's `<` on strings, defined by recursion on the first characters; proved equal to lexicographic order by Arraystring.StrLessIsLexicographic |
| Arraystring.StrLessIsLexicographic | def.go:7-9 | `Less` is lexicographic: equal up to some position, then a smaller character or the end of the first string |
| Arraystring.StrLessIrreflexive | def.go:7-9 | no string is less than itself |
| Arraystring.StrLessTransitive | def.go:7-9 | the order is transitive |
| Arraystring.StrLessTotal | def.go:7-9 | any two different strings are ordered one way or the other |
| Arraystring.StrLessAsymmetric | def.go:7-9 | two strings are never less than each other both ways |
| Arraystring.Swap | def.go:11-13 | the array afterwards is the old contents with the two positions exchanged |
| Arraystring.SwappedAt | def.go:11-13 | after a swap, the two positions hold each other's old elements and every other position is unchanged |
| Arraystring.SwappedPermutes | def.go:11-13 | a swap keeps the multiset of elements |
| Arraystring.SwappedTwice | def.go:11-13 | swapping the same two positions twice restores the array |
| Arraystring.Sort | contenttype.go:45 | the array ends sorted by `Less` and is a permutation of its old contents |
| Arraystring.Insert | contenttype.go:45 | one insertion step sorts `a[..i + 1]` as a permutation of its old contents and leaves `a[i + 1..]` unchanged |
| Arraystring.SortedDistinctIsStrict | contenttype.go:45 | sorted names without repeats are strictly increasing |
| Arraystring.PermutationKeepsDistinct | contenttype.go:45 | a permutation of a list without repeats has no repeats |
| Arraystring.DistinctOccursOnce | contenttype.go:45 | in a list without repeats every element occurs at most once |
| Arraystring.LeastExists | contenttype.go:45 | a non-empty set of names has a least element |
| Arraystring.HeadIsLeast | contenttype.go:45 | the first element of a strictly increasing list is the least one |
| Arraystring.StrictlySortedUnique | contenttype.go:45 | two strictly increasing lists with the same elements are equal |
| Arraystring.SortedKeys | contenttype.go:45 | the sorted listing of a name set: as many entries as names, exactly the names, strictly increasing |
| Arraystring.SortedListingIsSortedKeys | contenttype.go:45 | any strictly increasing listing of a name set is that sorted listing |
| RoundTrip.QStringDecodes | contenttype.go:130-136 | what `qstring` writes is a value `paramRegExp` accepts, and the parser decodes it back to the original value |
| RoundTrip.RenderCons | contenttype.go:45-54 | a rendering is the first segment followed by the rendering of the remaining names |
| RoundTrip.RenderStartsWithSemicolon | contenttype.go:50 | a non-empty rendering starts with `;` |
| RoundTrip.SegmentMatches | contenttype.go:28 | a written segment, followed by the end or the next `;`, is one match of `paramRegExp` whose name and value are the written ones |
| RoundTrip.SegmentParses | contenttype.go:121-138 | the parser reads a written segment as the entry it was written from and goes on just after it |
| RoundTrip.MatchEntry | contenttype.go:127-136 | a match over a lower-case name and an encoded value records that name and the decoded value |
| RoundTrip.FirstSegmentAt | contenttype.go:45-54 | the first segment of a rendering is at the front of the input, followed by `;` or the end, and then by the rest of the rendering |
| RoundTrip.ParseFirstSegment | contenttype.go:121-138 | the parser reads the first segment of a rendering and continues at the start of the second |
| RoundTrip.ParseRendered | contenttype.go:121-143 | the parameter loop reads a whole rendering back as the fold of its entries |
| RoundTrip.SplitRendering | contenttype.go:50 | an input made of a segment and a rest splits at the segment's length |
| RoundTrip.PairsAt | contenttype.go:45-54 | the entries of a rendering pair each listed name with its value |
| RoundTrip.FoldPairsIsMap | contenttype.go:138 | folding the entries of every name of a map, each listed once, rebuilds that map |
| RoundTrip.StrictlySortedIsDistinct | contenttype.go:45 | a strictly increasing list has no repeats |
| RoundTrip.FormatOutput | contenttype.go:38-57 | a successful format is the type followed by the rendering of the sorted parameter names |
| RoundTrip.ParseBareType | contenttype.go:105-118 | a lower-case type with nothing around it parses to itself with no parameters |
| RoundTrip.ParseTypeThenParams | contenttype.go:105-149 | a lower-case type followed by parameters parses to that type and the loop's map |
| RoundTrip.ParseTypeAndParams | contenttype.go:105-149 | a lower-case type followed by the rendering of a lower-case-named map parses back to that type and that map |
| RoundTrip.FormatThenParse | contenttype.go:105-149 | parsing what `Format` writes for a lower-case value gives back that value exactly |
| RoundTrip.ParseFormatParse | contenttype.go:105-149 | parsing, formatting and parsing again gives the first parse result (formatting a parsed value loses nothing) |
| RoundTrip.FormatParsedFailsOnValues | contenttype.go:151-163 | formatting a parsed value can only fail on a parameter value |
| RoundTrip.EscapedDeleteDoesNotFormat | contenttype.go:28-31 | `"\` + U+007F + `"` is a quoted value that decodes to U+007F, and `qstring` refuses U+007F |
| DecodeCases.EscapedPairsDecode | parse_test.go:89-95 | the quoted value `"UT\F-\\\"8\""` decodes to `UTF-\"8"` |
| DecodeCases.FrontDecodes | contenttype.go:131-135 | `UT\F-` decodes to `UTF-` whatever follows it |
| ParseCases.NameIsLowered | parse_test.go:72-79 | `text/html; Charset=UTF-8` parses to `text/html` with the single parameter `charset` = `UTF-8` |
| ParseCases.UnclosedQuoteRefused | parse_test.go:111-114 | `text/plain; foo="bar` is refused with "invalid parameter format" |
| ParseCases.UnquotedUrlRefused | parse_test.go:119-122 | `text/plain; profile=http://localhost` is refused with "invalid parameter format" |
| ParseCases.OneTokenParameter | contenttype.go:105-149 | a lower-case type followed by one segment with a token name and a token value parses to that type and the lowered name mapped to the value |
| ParseCases.UnclosedQuote | contenttype.go:121-143 | a type followed by `; name="` and a body that never closes is refused with "invalid parameter format" |
| ParseCases.NoMatchAtUnclosed | contenttype.go:121-124 | `paramRegExp` does not match at a `;` whose quoted value never closes |
| ParseCases.TokenParameterThenJunk | contenttype.go:121-143 | a token segment followed by a character that is no space, no token character and no `;` makes the loop fail there |
| ParseCases.MatchExtends | contenttype.go:28 | a match that ends its input stays a match when a character follows that can extend neither the value nor the trailing spaces |
| ParseCases.TypeHead | contenttype.go:105-119 | when the text before the first `;` is a lower-case type with no white space at its ends, `Parse` is that type with the result of the parameter loop from that `;` |
| ParseCases.LastSegment | contenttype.go:121-143 | a token segment at the end of the input gives the loop the single entry of its lowered name and its value |
| ParseCases.LastMatch | contenttype.go:121-143 | a match that runs to the end of the input ends the loop with its entry added |
| FormatCases.ParametersInNameOrder | format_test.go:58-69 | `text/html` with `charset`, `foo` and `bar` is written `text/html; bar=baz; charset=utf-8; foo=bar`, names in order |
| FormatCases.NamesInOrder | format_test.go:58-69 | the sorted names of that map are `bar`, `charset`, `foo` |
| FormatCases.RenderThree | contenttype.go:45-54 | three listed names with token names and token values are written as their three bare segments, in list order |
| FormatCases.QuotesAreEscaped | format_test.go:36-45 | the value `bar or "baz"` is written `foo="bar or \"baz\""` |
| FormatCases.QuotedValue | contenttype.go:151-163 | `bar or "baz"` is no token but is all text, so `qstring` quotes it and escapes its two quotes |
| FormatCases.EscapeQuotes | contenttype.go:160-162 | two runs without `\` or `"`, each followed by `"`, escape to the runs each followed by `\"` |
| FormatCases.RenderedQuoted | contenttype.go:45-54 | a map with the single name `foo` is written as one segment carrying the value `qstring` gives |
| QStringCases.TokenIsBare | format_test.go:25-34 | `utf-8` is written bare |
| QStringCases.EmptyIsQuoted | format_test.go:47-56 | the empty value is written as `""` |
| QStringCases.NulIsRefused | format_test.go:101-109 | a value holding NUL is refused with "invalid parameter value" |

## Left out

- `ParserResponse`, `ParseRequest` and `ParseHeader` (contenttype.go:59-100) are adapters over `net/http` headers and reflection. They end in `Parse`. Header lookup and reflection are I/O for this model.
- `Parameters` (contenttype.go:24-26) is an identity conversion between map types. The model uses `map<string, string>` throughout.
- Format: the model takes a `ContentType` value, not a pointer. `Format(nil)` is not modelled. The test expects an "argument ContentType is required" error, but the code has no such check and would dereference nil.
- Error messages are kinds, not strings. The text of each message, including the "paremeter" misspelling, is not modelled.
- Arraystring.Sort: the generated `Sort()` of `Arraystring` is not part of this model. It is modelled as an insertion sort built from `Less` and `Swap`, which gives the same sorted result for a list without repeats.
- Objectstringstring.Keys: Go's random map iteration order is modelled as an arbitrary choice. The contract fixes the contents but not the order.
- GoStrings.ToLower: only ASCII letters are folded. `strings.ToLower` also folds non-ASCII letters. The model applies it only to tokens, which are ASCII, so the weaker contract loses nothing.
- Invalid UTF-8 input is not modelled. Strings are sequences of code points.
- The regular-expression engine itself is not modelled. Each pattern is a predicate, and the `paramRegExp` scan is a deterministic scanner proved to find the unique match.
- The inputs of parse_test.go and format_test.go restated as lemmas are those of parse_test.go:72-79, 89-95, 111-114 and 119-122 and of format_test.go:25-34, 36-45, 47-56, 58-69 and 101-109. The behaviour on the other inputs follows from the general lemmas about `ParseSpec` and `FormatSpec`: `ParseTypeCheck`, `ParsedIsNormal`, `ParseParamsTiling`, `FoldLastWins`, `TrailingSemicolonFails`, `FormatOk` and `FormatThenParse`.
- The test files set `Type:` and `Parameters:` fields that the `ContentType` struct (contenttype.go:16-19) does not declare. The model follows the struct: `typ` and `parameters`.
