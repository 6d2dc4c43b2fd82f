# fragstrings in Dafny

A model of the fragmented-string macros of `fragstrings`. A fragmented string is
a descriptor such as `%s%d`, followed by one field per descriptor item, all
joined with `"__"`. For example, `frag_format!("%s%d", "test", 42)` is
`"%s%d__test__42"`, and `frag_parse!("%s%d", "%s%d__test__42")` is
`Some(("test", 42))`.

The model states the runtime meaning of the two procedural macros as pure
functions over byte strings. It covers:

- the descriptor parser `parse_format_string`;
- the string-literal helper `parse_string_literal`;
- the encoder generated by `frag_format_impl`;
- the decoder generated by `frag_parse_impl`, modelled as one interpreter
  driven by the item list.

The model proves:

- the round trips and the iff characterisations of each piece;
- that what the encoder writes, the decoder reads back;
- the concrete outcomes the repository's tests expect.

Modules, one file each:

- `Wrappers`: `Option` and `Result`.
- `Bytes`: text as a sequence of UTF-8 bytes, and the char-boundary test of
  `str` slicing.
- `Fragments`: `str::split("__")` with Rust's semantics. Matches are leftmost
  and do not overlap, empty pieces are kept, and there is always at least one
  piece. Also `Join`, its inverse on pieces that cannot be re-split.
- `Ints`: `str::parse::<i64>`, and `i64` display in base 10.
- `Literals`: `parse_string_literal`.
- `FmtStrings`: `FormatItem` and `parse_format_string`, with `Render` as the
  inverse.
- `Values`: the value of one item (a string or an `i64`) and the field written
  for it.
- `Format`: `frag_format!`. The `format!` call is modelled as substitution of
  `{}` placeholders into the template the macro builds, and is proved equal to
  the descriptor followed by the `"__"`-joined fields.
- `Parse`: `frag_parse!`:
  - the wildcard stripping;
  - the pattern check;
  - per-item fragment consumption;
  - the tail check;
  - the generated code as written, which can panic (see Findings).
- `RoundTrip`: encoder against decoder.
- `Scenarios`: the repository's test cases as lemmas about concrete texts.

Texts are byte sequences (`Bytes.Byte` is a `char` at most `0xFF`), because the
source measures and slices them by byte: it uses `len()`, `bytes().tuples()` and
`&s[a..b]`.

## Model

| member | source | states |
|---|---|---|
| Fragments.FindDelim | parse-procmacro/src/lib.rs:172 | the next "__" at or after a position is the leftmost one: no match starts before it |
| Fragments.Split | parse-procmacro/src/lib.rs:172 | `input.split("__")` yields at least one piece, no piece contains "__", no piece but the last ends in '_', and the pieces joined with "__" give back the input |
| Fragments.SplitJoin | parse-procmacro/src/lib.rs:172 | splitting pieces joined with "__" gives back exactly those pieces, empty ones included, whenever they satisfy the conditions above |
| Fragments.SplitNoDelim | parse-procmacro/src/lib.rs:172-173 | a text without "__" splits into itself alone, so it is the first fragment |
| Ints.ParseI64 | parse-procmacro/src/lib.rs:144-151 | `value.parse::<i64>()` accepts only an optional sign followed by digits, never the empty text, a lone sign or an underscore; a negative result comes from a leading '-' |
| Ints.ShowI64 | format-procmacro/src/lib.rs:127-141 | an `i64` prints as a non-empty run of digits, with a leading '-' exactly when negative and never an underscore |
| Ints.ParseShow | parse-procmacro/src/lib.rs:144-151 | parsing the decimal text of any `i64` gives that `i64` back, over the whole range including both ends |
| Ints.ShowParse | parse-procmacro/src/lib.rs:144-151 | a canonical decimal text (no '+', no leading zero, no "-0") that parses is exactly the display of its value |
| Ints.ParseSigned | parse-procmacro/src/lib.rs:144-151 | every text made of no sign, '+' or '-' and then one or more digits (leading zeros allowed) parses exactly when its signed value is inside the `i64` range, and then to that value |
| Literals.StripHashes | utils/src/lib.rs:55-60 | the `while` loop peels equally many '#' off both ends, and what remains cannot be peeled further |
| Literals.ParseStringLiteral | utils/src/lib.rs:51-69 | when a body is returned, the literal is that body in quotes, bare, behind 'b', or behind 'r' with equally many '#' on both sides |
| Literals.Reassemble | utils/src/lib.rs:52-61 | the prefix stripping loses nothing: the literal is its opening, the stripped remainder and its closing hashes |
| Literals.ParseSpell | utils/src/lib.rs:52-65 | every spelling of every body (`"…"`, `b"…"`, `r"…"`, `r#"…"#` with any number of balanced hashes) parses back to that body |
| Literals.ParseIff | utils/src/lib.rs:51-69 | a literal parses to a body if and only if it is one of those spellings of it; so unbalanced hashes, texts not quote-delimited and texts shorter than two quotes give None |
| Literals.BodyInside | utils/src/lib.rs:53-65 | the returned body, with its two quotes, is a contiguous part of the literal, and the body is strictly shorter than the literal |
| FmtStrings.ParsePairs | utils/src/lib.rs:117-127 | the loop over byte pairs accepts only `%s`/`%d` pairs, and its items render back to the bytes read |
| FmtStrings.ParseFormatString | utils/src/lib.rs:103-135 | the empty descriptor is refused; an accepted one gives at least one item, `Any` only last and only behind another item, and the items render back to the descriptor |
| FmtStrings.ParseRender | utils/src/lib.rs:103-135 | every valid item list (`%s`/`%d` items, then an optional single `*` behind at least one) is parsed back from its rendering |
| FmtStrings.ParseIff | utils/src/lib.rs:103-135 | a descriptor parses to an item list if and only if the list is valid and renders to the descriptor |
| FmtStrings.AcceptedBytes | utils/src/lib.rs:117-125 | an accepted descriptor consists of '%', 's', 'd' and '*' only, so a stray character, a lone '%' or "%%" is refused |
| FmtStrings.ItemCount | utils/src/lib.rs:107-133 | an accepted descriptor ends in `Any` exactly when its length is odd, and has `len/2` items plus one for the '*' |
| FmtStrings.RenderWildcard | utils/src/lib.rs:128-133 | appending `Any` to the items appends '*' to the rendering |
| FmtStrings.Examples | utils/src/lib.rs:141-166 | the unit tests' outcomes: "", "%", "%%", "%sx", " %s", "*" and "*%s" are refused; "%s", "%d%s" and "%s%d*" parse to their items |
| Format.FirstMisfit | format-procmacro/src/lib.rs:119-129 | the position of the first argument whose type does not fit its item; every earlier argument fits |
| Format.TemplateOutput | format-procmacro/src/lib.rs:132-141 | `format!` over the template "fmt__{}__{}…" with one `{}` per field gives the descriptor followed by "__" and each field in order |
| Format.DescriptorBraceFree | format-procmacro/src/lib.rs:132-136 | an accepted descriptor has no brace, so it is copied verbatim by `format!` |
| Format.FormatDescriptor | format-procmacro/src/lib.rs:103-143 | the encoder succeeds if and only if the descriptor is accepted, has no wildcard, and has one fitting argument per item. An unparsable or wildcard descriptor gives `BadFormatString`; a count mismatch gives `ArgCountMismatch`; with the right count, the first argument that does not fit its item gives `ArgTypeMismatch` at its position. The output is the descriptor, then "__" and each field |
| Format.FragFormat | format-procmacro/src/lib.rs:101-145 | for every spelling of a descriptor as a plain, `b` or raw string literal, the macro behaves as the encoder on that descriptor; a token that spells no string literal at all gives `BadStringLiteral` |
| Parse.Compile | parse-procmacro/src/lib.rs:114-122 | dropping a trailing `Any` drops the '*': the remaining items render to the pattern, and the descriptor is the pattern plus '*' exactly when the wildcard was there |
| Parse.TakeOne | parse-procmacro/src/lib.rs:131-157 | one item succeeds exactly when a fragment is left and it decodes: any text for `%s`, an `i64` for `%d` |
| Parse.TakeItems | parse-procmacro/src/lib.rs:128-160 | the items take fragments in order; all succeed exactly when there is a fragment for each and each decodes; the rest is what follows |
| Parse.Run | parse-procmacro/src/lib.rs:169-195 | every value the decoder returns is accepted in the declarative sense of `Parse.Accepts` |
| Parse.RunIff | parse-procmacro/src/lib.rs:169-195 | the decoder returns some values if and only if they are accepted: the first fragment passes the pattern check (equality, or a prefix test with the wildcard), each item decodes its fragment in order, and without the wildcard nothing is left over |
| Parse.RunComplete | parse-procmacro/src/lib.rs:178-187 | accepted values are exactly what the decoder returns |
| Parse.DecodesUnique | parse-procmacro/src/lib.rs:131-157 | an item reads at most one value out of a fragment |
| Parse.Rejections | parse-procmacro/src/lib.rs:162-193 | None when the pattern check fails (without the wildcard, a first fragment different from the descriptor), when there are fewer data fragments than items, when an integer fragment is not an `i64` (the empty one included), or when a fragment is left over without the wildcard |
| Parse.WildcardIgnoresTail | parse-procmacro/src/lib.rs:181-185 | with the wildcard, inputs that agree on the first fragment and on one fragment per item decode alike, whatever follows |
| Parse.FragParse | parse-procmacro/src/lib.rs:111-197 | a token that is not a string literal gives `BadStringLiteral`, a literal whose text is not an accepted descriptor `BadFormatString`, and otherwise success; a returned tuple is accepted under the compiled descriptor, and `None` means no tuple is |
| Parse.RunAsWritten | parse-procmacro/src/lib.rs:162-193 | the generated code as written: only a wildcard descriptor can make it panic, and a tuple it returns is one the descriptor accepts |
| Parse.AsWrittenPanics | parse-procmacro/src/lib.rs:162-164 | the code as written panics exactly when the descriptor has the wildcard and the input's first "__" (or its end) lies beyond the pattern length, with a UTF-8 continuation byte at that index of the input |
| Parse.AsWrittenAgrees | parse-procmacro/src/lib.rs:162-193 | whenever the as-written code does not panic, it returns what the corrected decoder returns |
| Parse.PanicExample | parse-procmacro/src/lib.rs:164 | under "%s*" the input "%é" makes the as-written code panic, where the corrected decoder returns None |
| Parse.AsciiNeverPanics | parse-procmacro/src/lib.rs:164 | on ASCII input the as-written code never panics and agrees with the corrected decoder |
| RoundTrip.FieldsDecode | parse-procmacro/src/lib.rs:142-151 | each item reads back the field written for a fitting value, an `i64` through its decimal text |
| RoundTrip.DecodeJoined | parse-procmacro/src/lib.rs:169-195 | the decoder returns the values whose fields follow a first fragment that passes the pattern check, when no field contains '_'; with the wildcard, also with more such fragments after them |
| RoundTrip.DecodeEncoded | parse-procmacro/src/lib.rs:9-12 | decoding the encoder's output under the same descriptor returns the encoded values, when no string value contains '_' |
| RoundTrip.AppendStar | utils/src/lib.rs:109-133 | appending '*' to an accepted descriptor without a wildcard appends one `Any` to its items |
| RoundTrip.DecodeEncodedOpen | parse-procmacro/src/lib.rs:116-122 | adding '*' to a descriptor the encoder accepts gives an accepted descriptor, which reads the values back even with further plain fragments appended |
| RoundTrip.FormatThenParse | format-procmacro/src/lib.rs:10-11 | `frag_parse!(lit, frag_format!(lit, args…))` is `Some(args)` for every literal `frag_format!` accepts and string arguments without '_' |
| Scenarios.UnderscoreBreaksRoundTrip | parse-procmacro/src/lib.rs:172 | the restriction to string values without '_' is needed: "a__b" encodes to "%s__a__b", which the decoder refuses |
| Scenarios.ParsesTo | parse-procmacro/src/lib.rs:169-195 | any spelling of an accepted descriptor decodes the plain fields behind a first fragment that passes its pattern check |
| Scenarios.ParsesPlain | parse-procmacro/src/lib.rs:169-195 | a quoted descriptor without the wildcard decodes its own text followed by the fields of fitting, underscore-free values back to those values |
| Scenarios.RejectsShape | parse-procmacro/src/lib.rs:173-185 | any spelling of an accepted descriptor returns None on fragments that fail the pattern check or whose number does not fit the items |
| Scenarios.ParseRefused | parse-procmacro/src/lib.rs:111-114 | a quoted text that is not an accepted descriptor is refused with `BadFormatString`, whatever the input |
| Scenarios.RejectsInt | parse-procmacro/src/lib.rs:144-151 | any spelling of an accepted descriptor returns None when an integer item's fragment is not an `i64` |
| Scenarios.FormatsTo | format-procmacro/src/lib.rs:101-143 | any spelling of an accepted descriptor without wildcard encodes fitting arguments to the descriptor followed by their fields |
| Scenarios.FormatRefused | format-procmacro/src/lib.rs:101-103 | a quoted text that is not an accepted descriptor is refused with `BadFormatString`, whatever the arguments |
| Scenarios.FormatWildcardRefused | format-procmacro/src/lib.rs:105-107 | a quoted descriptor that is accepted but ends in the wildcard is refused with `BadFormatString`, whatever the arguments |
| Scenarios.ParseString | tests/parse-tests.rs:33-84 | "%s__test" under "%s", r#"%s"# and b"%s" decodes to "test" |
| Scenarios.ParseInt | tests/parse-tests.rs:36-38 | "%d__42" under "%d" decodes to 42 |
| Scenarios.ParseTwo | tests/parse-tests.rs:47-49 | "%s%d__test__42" under "%s%d" decodes to ("test", 42) |
| Scenarios.ParseTwoSwapped | tests/parse-tests.rs:51-53 | "%d%s__42__test" under "%d%s" decodes to (42, "test") |
| Scenarios.ParseThreeStrings | tests/parse-tests.rs:55-58 | "%s%s%s__foo__bar__baz" (the text of `value_str_fn`) under "%s%s%s" decodes to ("foo", "bar", "baz") |
| Scenarios.ParseThreeInts | tests/parse-tests.rs:60-63 | "%d%d%d__1__2__3" (the text of `value_string_fn`) under "%d%d%d" decodes to (1, 2, 3) |
| Scenarios.ParseMixedThree | tests/parse-tests.rs:65-68 | "%s%d%s__foo__42__bar" (the text of `other_string_fn`) under "%s%d%s" decodes to ("foo", 42, "bar") |
| Scenarios.ParseWildcard | tests/parse-tests.rs:98-100 | "%s%d__test__42" under "%s%d*" decodes to ("test", 42) |
| Scenarios.ParseWildcardExtra | tests/parse-tests.rs:103-105 | "%s%d%s__test__42__foo" under "%s%d*" decodes to ("test", 42) |
| Scenarios.RejectMissing | tests/parse-tests.rs:70 | "%d" under "%d" is None: no data fragment |
| Scenarios.RejectEmptyInt | tests/parse-tests.rs:71 | "%d__" under "%d" is None: the empty fragment is not an integer |
| Scenarios.RejectNotInt | tests/parse-tests.rs:73 | "%d__foo" under "%d" is None |
| Scenarios.RejectOtherDescriptor | tests/parse-tests.rs:74 | "%s__foo" under "%d" is None |
| Scenarios.RejectTooFew | tests/parse-tests.rs:76 | "%d%s__42" under "%d%s" is None |
| Scenarios.RejectTooMany | tests/parse-tests.rs:78 | "%d%s__42__foo__bar" under "%d%s" is None |
| Scenarios.RejectLongerDescriptor | tests/parse-tests.rs:95 | "%s%d%s__test__42__foo" under "%s%d" is None |
| Scenarios.RejectMismatchedDescriptor | tests/parse-tests.rs:158 | "%s%s__test__42" under "%s%d" is None |
| Scenarios.ParseErrors | tests/parse-tests.rs:13-15 | `frag_parse!("xxx", …)` is a `BadFormatString` error and `frag_parse!(42, …)` a `BadStringLiteral` error |
| Scenarios.FormatString | tests/format-tests.rs:17-34 | `frag_format!("%s", "test")`, also with r#"%s"# and b"%s", is "%s__test" |
| Scenarios.FormatInt | tests/format-tests.rs:18 | `frag_format!("%d", 42)` is "%d__42" |
| Scenarios.FormatTwo | tests/format-tests.rs:40 | `frag_format!("%s%d", "test", 42)` is "%s%d__test__42" |
| Scenarios.FormatTwoSwapped | tests/format-tests.rs:41 | `frag_format!("%d%s", 42, "test")` is "%d%s__42__test" |
| Scenarios.RefusedDescriptors | tests/format-tests.rs:6-15 | "", "xxx", "*" and "*%d" are refused by the descriptor parser; "%d*" and "%d%d" are accepted |
| Scenarios.FormatBadDescriptors | tests/format-tests.rs:6-13 | `frag_format!` with "", "xxx" or "*" is a `BadFormatString` error |
| Scenarios.FormatBadWildcard | tests/format-tests.rs:14-15 | `frag_format!` with "*%d" or "%d*" is a `BadFormatString` error |
| Scenarios.FormatMissingArgument | tests/format-tests.rs:7 | `frag_format!("%s")` is an `ArgCountMismatch` error |
| Scenarios.FormatTooFewArguments | tests/format-tests.rs:9 | `frag_format!("%d%d", 42)` is an `ArgCountMismatch` error |
| Scenarios.FormatNotLiteral | tests/format-tests.rs:10 | `frag_format!(42)` is a `BadStringLiteral` error |
| Scenarios.IntTexts | parse-procmacro/src/lib.rs:144-151 | an integer field reads "+42" as 42, "007" as 7 and "-0" as 0, and refuses "9223372036854775808", one past the largest `i64` |
| Scenarios.FormatWrongType | format-procmacro/src/lib.rs:123-127 | a string argument for a `%d` item is rejected at its position |
| Scenarios.LiteralsAccepted | utils/src/lib.rs:73-79 | `""`, `"foo"`, `b"foo"`, `r"foo"` and `r###"foo"###` parse to their bodies |
| Scenarios.LiteralsRefused | utils/src/lib.rs:81-89 | the empty text, `"`, `'foo'`, `"foo`, `foo"`, `r#"foo"` and `r"foo"#` are refused |

## Left out

- Parse.FragParse: it decodes with `Parse.Run`, the corrected wildcard check
  (`starts_with`) named under "## Findings", not with the code as written,
  which panics at parse-procmacro/src/lib.rs:164 on some non-ASCII inputs. The
  same holds for every lemma stated over `FragParse`. `Parse.AsciiNeverPanics`
  and `Parse.AsWrittenAgrees` carry those results over to the code as written,
  for ASCII input and for any input on which it does not panic.
- Token-level argument handling is not modelled. This covers
  `parse_punctuated_args` (utils/src/lib.rs:10-27) and the `NoArgs`,
  `StringLiteralExpected`, `UnrecognizedToken`, `StringExpressionExpected` and
  `TooManyArguments` errors (parse-procmacro/src/lib.rs:83-109,
  format-procmacro/src/lib.rs:82-99). These work on `proc_macro2` token trees,
  which belong to a foreign library. The model starts from the literal's text
  and the argument values.
- The `quote!` and `compile_error!` code generation is not modelled. The model
  states what the generated code does at run time, and a compile error is a
  `Failure` value.
- The `{ #arg } as i64` cast and the `AsRef<str>` conversion
  (format-procmacro/src/lib.rs:125-127) are not modelled. Arguments are taken as
  already an `i64` or a string. A wrongly typed argument, which rustc would
  reject at compile time, is `ArgTypeMismatch` at its position. Likewise the
  decoder's input binding `let input: &str = &(#formatted_value_expr);`
  (parse-procmacro/src/lib.rs:171) is not modelled: the decoder's input is taken
  as a text, so a non-text input such as `frag_parse!("%d", 42)`
  (tests/parse-tests.rs:12), which rustc rejects, has no counterpart.
- `format!` escapes other than the macro's own `{}` placeholders are not
  modelled. `Format.Interpolate` refuses any other brace. The macro never
  produces one, because an accepted descriptor contains no brace.
- Rust returns a tuple, or a bare value for a single item. The model returns a
  sequence of values.
- Rust strings are always valid UTF-8. The model accepts any byte sequence as
  input, which only widens what is covered.
- `src/lib.rs` is only a re-export and is not part of this model.
- Optional `?` items are not modelled:
  - The tests in tests/parse-tests.rs:113-160 use a `?` suffix.
  - `parse_format_string` refuses any `?` (utils/src/lib.rs:109-124), so the code
    has no such behaviour.
  - The model follows the code. With this parser, those tests would not compile.
  - The commented-out "known bug" assertions are left out with them.
- Scenarios.ParseString: the tests also decode through a `&str` variable and a
  `String` variable (tests/parse-tests.rs:39-45). Inputs reach the model
  directly as texts, so those variants are the case shown. The function calls
  at tests/parse-tests.rs:55-68 are modelled by the texts the functions return.
- Scenarios.FormatInt: the `2 + 2` and `int_fn(1, 2) * 3` arguments
  (tests/format-tests.rs:36-38) are evaluated by the code the macro generates
  (format-procmacro/src/lib.rs:127). The model takes the `i64` that this
  generated binding holds.

## Findings

| source | as written | input that shows it | evidently intended | confidence | as-written member | corrected member |
|---|---|---|---|---|---|---|
| parse-procmacro/src/lib.rs:164 | with the wildcard, the pattern check is `pattern.len() >= n && &pattern[0..n] == prefix`, and slicing a `&str` at byte `n` panics when `n` is not a character boundary | descriptor "%s*" and input "%é" (bytes 25 C3 A9): the first fragment is 3 bytes long and byte 2 lies inside 'é' | the decoder returns `Option`, so a non-matching input should give None (as `pattern.starts_with(prefix)` would) | not executed | Parse.RunAsWritten | Parse.Run |
