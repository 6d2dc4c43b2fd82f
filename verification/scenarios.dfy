/**
  Concrete invocations of the two macros, with the outcomes the repository's
  own tests expect of them. Each text is a named constant; the lemmas relate
  the macros' results on them through the general lemmas of the model.
*/
module Scenarios {
  import opened Bytes
  import opened Wrappers
  import opened Ints
  import opened Fragments
  import opened Literals
  import opened FmtStrings
  import opened Values
  import opened Format
  import opened Parse
  import opened RoundTrip

  // Descriptors, values and inputs used by the tests.
  const S: Bytes := "%s"
  const D: Bytes := "%d"
  const SD: Bytes := "%s%d"
  const DS: Bytes := "%d%s"
  const SS: Bytes := "%s%s"
  const SDS: Bytes := "%s%d%s"
  const SDAny: Bytes := "%s%d*"
  const Test: Bytes := "test"
  const Foo: Bytes := "foo"
  const Bar: Bytes := "bar"
  const N42: Bytes := "42"

  /** `frag_parse!` with any spelling of an accepted descriptor runs its decoder. */
  lemma SpelledParse(kind: LitKind, fmt: Bytes, items: seq<FormatItem>, input: Bytes)
    requires ParseFormatString(fmt) == Some(items)
    ensures FragParse(Spell(kind, fmt), input) == Success(Run(Compile(fmt, items), input))
  {
    ParseSpell(kind, fmt);
  }

  /**
    `frag_parse!` on a plain first fragment that passes the pattern check,
    followed by the fields of `args` and, behind a wildcard, further fragments.
  */
  lemma ParsesTo(kind: LitKind, fmt: Bytes, items: seq<FormatItem>, m: Matcher,
                 head: Bytes, args: seq<Value>, extra: seq<Bytes>)
    requires ParseFormatString(fmt) == Some(items) && Compile(fmt, items) == m
    requires NoUnderscore(head) && PatternMatches(m, head)
    requires |m.items| == |args| && forall i :: 0 <= i < |args| ==> Fits(m.items[i], args[i])
    requires PlainStrings(args) && AllPlain(extra)
    requires m.wildcard || extra == []
    ensures FragParse(Spell(kind, fmt), Join([head] + Fields(args) + extra)) == Success(Some(args))
  {
    SpelledParse(kind, fmt, items, Join([head] + Fields(args) + extra));
    DecodeJoined(m, head, args, extra);
  }

  /**
    `frag_parse!` returns `None` when the fragments fail the pattern check or
    their number does not fit the items.
  */
  lemma RejectsShape(kind: LitKind, fmt: Bytes, items: seq<FormatItem>, m: Matcher, pieces: seq<Bytes>)
    requires ParseFormatString(fmt) == Some(items) && Compile(fmt, items) == m
    requires |pieces| >= 1 && AllPlain(pieces)
    requires || !PatternMatches(m, pieces[0])
             || |pieces| < |m.items| + 1
             || (!m.wildcard && |pieces| != |m.items| + 1)
    ensures FragParse(Spell(kind, fmt), Join(pieces)) == Success(None)
  {
    SpelledParse(kind, fmt, items, Join(pieces));
    NoUnderscoreSplittable(pieces);
    SplitJoin(pieces);
  }

  /** `frag_parse!` returns `None` when an integer fragment does not parse. */
  lemma RejectsInt(kind: LitKind, fmt: Bytes, items: seq<FormatItem>, m: Matcher, pieces: seq<Bytes>, bad: nat)
    requires ParseFormatString(fmt) == Some(items) && Compile(fmt, items) == m
    requires |pieces| >= 1 && AllPlain(pieces)
    requires bad < |m.items| && bad + 1 < |pieces|
    requires m.items[bad] == Int && ParseI64(pieces[bad + 1]).None?
    ensures FragParse(Spell(kind, fmt), Join(pieces)) == Success(None)
  {
    SpelledParse(kind, fmt, items, Join(pieces));
    NoUnderscoreSplittable(pieces);
    SplitJoin(pieces);
  }

  /** `frag_format!` with any spelling of an accepted descriptor and fitting arguments. */
  lemma FormatsTo(kind: LitKind, fmt: Bytes, items: seq<FormatItem>, args: seq<Value>)
    requires ParseFormatString(fmt) == Some(items) && NoWildcard(items)
    requires |items| == |args| && forall i :: 0 <= i < |args| ==> Fits(items[i], args[i])
    ensures FragFormat(Spell(kind, fmt), args) == Success(Join([fmt] + Fields(args)))
  {
    ParseSpell(kind, fmt);
  }

  /** `frag_format!` with a plain literal, fitting arguments and a known output. */
  lemma FormatsPlain(lit: Bytes, fmt: Bytes, items: seq<FormatItem>, args: seq<Value>, out: Bytes)
    requires Spell(Plain, fmt) == lit
    requires ParseFormatString(fmt) == Some(items) && NoWildcard(items)
    requires |items| == |args| && forall i :: 0 <= i < |args| ==> Fits(items[i], args[i])
    requires Join([fmt] + Fields(args) + []) == out
    ensures FragFormat(lit, args) == Success(out)
  {
    assert [fmt] + Fields(args) + [] == [fmt] + Fields(args);
    FormatsTo(Plain, fmt, items, args);
  }

  /** `frag_format!` with a plain literal whose text is not an accepted descriptor. */
  lemma FormatRefused(fmt: Bytes, args: seq<Value>)
    requires ParseFormatString(fmt).None?
    ensures FragFormat(Quoted(fmt), args) == Failure(FormatError.BadFormatString)
  {
    assert Spell(Plain, fmt) == Quoted(fmt);
  }

  /** `frag_format!` with a plain literal whose descriptor has the wildcard. */
  lemma FormatWildcardRefused(fmt: Bytes, items: seq<FormatItem>, args: seq<Value>)
    requires ParseFormatString(fmt) == Some(items) && !NoWildcard(items)
    ensures FragFormat(Quoted(fmt), args) == Failure(FormatError.BadFormatString)
  {
    assert Spell(Plain, fmt) == Quoted(fmt);
  }

  lemma JoinPair(a: Bytes, b: Bytes)
    ensures Join([a, b]) == a + Delim + b
  {
    assert [a, b][1..] == [b];
  }

  lemma JoinTriple(a: Bytes, b: Bytes, c: Bytes)
    ensures Join([a, b, c]) == a + Delim + b + Delim + c
  {
    assert [a, b, c][1..] == [b, c];
    JoinPair(b, c);
  }

  lemma JoinQuad(a: Bytes, b: Bytes, c: Bytes, d: Bytes)
    ensures Join([a, b, c, d]) == a + Delim + b + Delim + c + Delim + d
  {
    assert [a, b, c, d][1..] == [b, c, d];
    JoinTriple(b, c, d);
  }

  lemma Show42()
    ensures ShowI64(42) == N42
  {
    assert NatDigits(4) == [Digit(4)];
    assert NatDigits(42) == NatDigits(4) + [Digit(2)];
  }

  lemma OneItem()
    ensures ParseFormatString(S) == Some([Str]) && Compile(S, [Str]) == Matcher(S, false, [Str])
    ensures ParseFormatString(D) == Some([Int]) && Compile(D, [Int]) == Matcher(D, false, [Int])
  {
    ParseRender([Str]);
    assert Render([Str]) == S;
    ParseRender([Int]);
    assert Render([Int]) == D;
  }

  lemma TwoItems()
    ensures ParseFormatString(SD) == Some([Str, Int]) && Compile(SD, [Str, Int]) == Matcher(SD, false, [Str, Int])
    ensures ParseFormatString(DS) == Some([Int, Str]) && Compile(DS, [Int, Str]) == Matcher(DS, false, [Int, Str])
  {
    ParseRender([Str, Int]);
    assert Render([Str, Int]) == SD;
    ParseRender([Int, Str]);
    assert Render([Int, Str]) == DS;
  }

  lemma WildcardDescriptor()
    ensures ParseFormatString(SDAny) == Some([Str, Int, Any])
    ensures Compile(SDAny, [Str, Int, Any]) == Matcher(SD, true, [Str, Int])
  {
    ParseRender([Str, Int, Any]);
    assert Render([Str, Int, Any]) == SDAny;
    assert SDAny[..|SDAny| - 1] == SD;
  }

  const QuotedS: Bytes := "\"%s\""
  const RawS: Bytes := "r#\"%s\"#"
  const ByteS: Bytes := "b\"%s\""
  const STest: Bytes := "%s__test"
  const QuotedD: Bytes := "\"%d\""
  const QuotedSD: Bytes := "\"%s%d\""
  const QuotedDS: Bytes := "\"%d%s\""
  const QuotedSDAny: Bytes := "\"%s%d*\""
  const D42: Bytes := "%d__42"
  const SDTest42: Bytes := "%s%d__test__42"
  const DSTest42: Bytes := "%d%s__42__test"
  const SDSTest42Foo: Bytes := "%s%d%s__test__42__foo"
  const SSTest42: Bytes := "%s%s__test__42"
  const DEmpty: Bytes := "%d__"
  const DFoo: Bytes := "%d__foo"
  const SFoo: Bytes := "%s__foo"
  const DS42: Bytes := "%d%s__42"
  const DS42FooBar: Bytes := "%d%s__42__foo__bar"
  const Xxx: Bytes := "xxx"
  const Star: Bytes := "*"
  const StarD: Bytes := "*%d"
  const DStar: Bytes := "%d*"
  const DD: Bytes := "%d%d"
  const AB: Bytes := "a__b"
  const A: Bytes := "a"
  const B: Bytes := "b"
  const SAB: Bytes := "%s__a__b"

  // String literal tokens.
  const LitEmpty: Bytes := "\"\""
  const LitFoo: Bytes := "\"foo\""
  const LitByteFoo: Bytes := "b\"foo\""
  const LitRawFoo: Bytes := "r\"foo\""
  const LitRaw3Foo: Bytes := "r###\"foo\"###"
  const LitQuote: Bytes := "\""
  const LitSingle: Bytes := "'foo'"
  const LitOpenOnly: Bytes := "\"foo"
  const LitCloseOnly: Bytes := "foo\""
  const LitRawOpen: Bytes := "r#\"foo\""
  const LitRawClose: Bytes := "r\"foo\"#"

  lemma SpelledS()
    ensures Spell(Plain, S) == QuotedS && Spell(Raw(1), S) == RawS && Spell(ByteStr, S) == ByteS
  {
  }

  lemma EncodedTest()
    ensures Join([S] + Fields([StrVal(Test)]) + []) == STest
  {
    assert [S] + Fields([StrVal(Test)]) + [] == [S, Test];
    JoinPair(S, Test);
  }

  /** `frag_parse!("%s", "%s__test")` is `Some("test")`, in every spelling of the literal. */
  lemma ParseString()
    ensures FragParse(QuotedS, STest) == Success(Some([StrVal(Test)]))
    ensures FragParse(RawS, STest) == Success(Some([StrVal(Test)]))
    ensures FragParse(ByteS, STest) == Success(Some([StrVal(Test)]))
  {
    OneItem();
    EncodedTest();
    SpelledS();
    ParsesTo(Plain, S, [Str], Matcher(S, false, [Str]), S, [StrVal(Test)], []);
    ParsesTo(Raw(1), S, [Str], Matcher(S, false, [Str]), S, [StrVal(Test)], []);
    ParsesTo(ByteStr, S, [Str], Matcher(S, false, [Str]), S, [StrVal(Test)], []);
  }

  lemma SpelledOthers()
    ensures Spell(Plain, D) == QuotedD && Spell(Plain, SD) == QuotedSD
    ensures Spell(Plain, DS) == QuotedDS && Spell(Plain, SDAny) == QuotedSDAny
  {
  }

  lemma Encoded42()
    ensures Join([D] + Fields([IntVal(42)]) + []) == D42
  {
    Show42();
    assert [D] + Fields([IntVal(42)]) + [] == [D, N42];
    JoinPair(D, N42);
  }

  lemma EncodedSD()
    ensures Join([SD] + Fields([StrVal(Test), IntVal(42)]) + []) == SDTest42
  {
    Show42();
    assert [SD] + Fields([StrVal(Test), IntVal(42)]) + [] == [SD, Test, N42];
    JoinTriple(SD, Test, N42);
  }

  lemma EncodedDS()
    ensures Join([DS] + Fields([IntVal(42), StrVal(Test)]) + []) == DSTest42
  {
    Show42();
    assert [DS] + Fields([IntVal(42), StrVal(Test)]) + [] == [DS, N42, Test];
    JoinTriple(DS, N42, Test);
  }

  lemma EncodedSDS()
    ensures Join([SDS] + Fields([StrVal(Test), IntVal(42)]) + [Foo]) == SDSTest42Foo
  {
    Show42();
    assert [SDS] + Fields([StrVal(Test), IntVal(42)]) + [Foo] == [SDS, Test, N42, Foo];
    JoinQuad(SDS, Test, N42, Foo);
  }

  lemma PlainValues()
    ensures PlainStrings([StrVal(Test), IntVal(42)]) && PlainStrings([IntVal(42), StrVal(Test)])
    ensures AllPlain([]) && AllPlain([Foo]) && NoUnderscore(SDS)
  {
  }

  /** `frag_parse!("%d", "%d__42")` is `Some(42)`. */
  lemma ParseInt()
    ensures FragParse(QuotedD, D42) == Success(Some([IntVal(42)]))
  {
    OneItem();
    Encoded42();
    SpelledOthers();
    ParsesTo(Plain, D, [Int], Matcher(D, false, [Int]), D, [IntVal(42)], []);
  }

  /** Two items read their fragments in order. */
  lemma ParseTwo()
    ensures FragParse(QuotedSD, SDTest42) == Success(Some([StrVal(Test), IntVal(42)]))
  {
    TwoItems();
    EncodedSD();
    SpelledOthers();
    PlainValues();
    ParsesTo(Plain, SD, [Str, Int], Matcher(SD, false, [Str, Int]), SD, [StrVal(Test), IntVal(42)], []);
  }

  lemma ParseTwoSwapped()
    ensures FragParse(QuotedDS, DSTest42) == Success(Some([IntVal(42), StrVal(Test)]))
  {
    TwoItems();
    EncodedDS();
    SpelledOthers();
    PlainValues();
    ParsesTo(Plain, DS, [Int, Str], Matcher(DS, false, [Int, Str]), DS, [IntVal(42), StrVal(Test)], []);
  }

  /** A descriptor with the wildcard reads an input without extra fragments. */
  lemma ParseWildcard()
    ensures FragParse(QuotedSDAny, SDTest42) == Success(Some([StrVal(Test), IntVal(42)]))
  {
    WildcardDescriptor();
    EncodedSD();
    SpelledOthers();
    PlainValues();
    assert StartsWith(SD, SD);
    ParsesTo(Plain, SDAny, [Str, Int, Any], Matcher(SD, true, [Str, Int]), SD, [StrVal(Test), IntVal(42)], []);
  }

  /**
    With the wildcard, the first fragment need only start with the pattern and
    fragments beyond the items are ignored.
  */
  lemma ParseWildcardExtra()
    ensures FragParse(QuotedSDAny, SDSTest42Foo) == Success(Some([StrVal(Test), IntVal(42)]))
  {
    WildcardDescriptor();
    EncodedSDS();
    SpelledOthers();
    PlainValues();
    assert SDS[..|SD|] == SD;
    ParsesTo(Plain, SDAny, [Str, Int, Any], Matcher(SD, true, [Str, Int]), SDS, [StrVal(Test), IntVal(42)], [Foo]);
  }

  /** `frag_parse!("%d", "%d")`: no data fragment. */
  lemma RejectMissing()
    ensures FragParse(QuotedD, D) == Success(None)
  {
    OneItem();
    SpelledOthers();
    RejectsShape(Plain, D, [Int], Matcher(D, false, [Int]), [D]);
  }

  lemma RejectedInputs()
    ensures Join([D, []]) == DEmpty && AllPlain([D, []])
    ensures Join([D, Foo]) == DFoo && AllPlain([D, Foo])
    ensures Join([S, Foo]) == SFoo && AllPlain([S, Foo])
    ensures Join([DS, N42]) == DS42 && AllPlain([DS, N42])
  {
    JoinPair(D, []);
    JoinPair(D, Foo);
    JoinPair(S, Foo);
    JoinPair(DS, N42);
  }

  lemma TooManyInput()
    ensures Join([DS, N42, Foo, Bar]) == DS42FooBar && AllPlain([DS, N42, Foo, Bar])
  {
    JoinQuad(DS, N42, Foo, Bar);
  }

  lemma LongerInput()
    ensures Join([SDS, Test, N42, Foo]) == SDSTest42Foo && AllPlain([SDS, Test, N42, Foo])
  {
    JoinQuad(SDS, Test, N42, Foo);
  }

  lemma MismatchedInput()
    ensures Join([SS, Test, N42]) == SSTest42 && AllPlain([SS, Test, N42])
    ensures SS != SD
  {
    JoinTriple(SS, Test, N42);
    assert SS[3] != SD[3];
  }

  /** `frag_parse!("%d", "%d__")`: an empty fragment is not an integer. */
  lemma RejectEmptyInt()
    ensures FragParse(QuotedD, DEmpty) == Success(None)
  {
    OneItem();
    SpelledOthers();
    RejectedInputs();
    RejectsInt(Plain, D, [Int], Matcher(D, false, [Int]), [D, []], 0);
  }

  /** `frag_parse!("%d", "%d__foo")`: "foo" is not an integer. */
  lemma RejectNotInt()
    ensures FragParse(QuotedD, DFoo) == Success(None)
  {
    OneItem();
    SpelledOthers();
    RejectedInputs();
    assert Foo[0] == 'f';
    RejectsInt(Plain, D, [Int], Matcher(D, false, [Int]), [D, Foo], 0);
  }

  /** `frag_parse!("%d", "%s__foo")`: the first fragment is not the descriptor. */
  lemma RejectOtherDescriptor()
    ensures FragParse(QuotedD, SFoo) == Success(None)
  {
    OneItem();
    SpelledOthers();
    RejectedInputs();
    assert S != D by { assert S[1] != D[1]; }
    RejectsShape(Plain, D, [Int], Matcher(D, false, [Int]), [S, Foo]);
  }

  /** `frag_parse!("%d%s", "%d%s__42")`: too few fragments. */
  lemma RejectTooFew()
    ensures FragParse(QuotedDS, DS42) == Success(None)
  {
    TwoItems();
    SpelledOthers();
    RejectedInputs();
    RejectsShape(Plain, DS, [Int, Str], Matcher(DS, false, [Int, Str]), [DS, N42]);
  }

  /** `frag_parse!("%d%s", "%d%s__42__foo__bar")`: too many fragments without the wildcard. */
  lemma RejectTooMany()
    ensures FragParse(QuotedDS, DS42FooBar) == Success(None)
  {
    TwoItems();
    SpelledOthers();
    TooManyInput();
    RejectsShape(Plain, DS, [Int, Str], Matcher(DS, false, [Int, Str]), [DS, N42, Foo, Bar]);
  }

  /**
    `frag_parse!("%s%d", "%s%d%s__test__42__foo")`: without the wildcard the
    first fragment must be the descriptor itself.
  */
  lemma RejectLongerDescriptor()
    ensures FragParse(QuotedSD, SDSTest42Foo) == Success(None)
  {
    TwoItems();
    SpelledOthers();
    LongerInput();
    assert |SDS| != |SD|;
    RejectsShape(Plain, SD, [Str, Int], Matcher(SD, false, [Str, Int]), [SDS, Test, N42, Foo]);
  }

  /** `frag_parse!("%s%d", "%s%s__test__42")`: a different descriptor. */
  lemma RejectMismatchedDescriptor()
    ensures FragParse(QuotedSD, SSTest42) == Success(None)
  {
    TwoItems();
    SpelledOthers();
    MismatchedInput();
    RejectsShape(Plain, SD, [Str, Int], Matcher(SD, false, [Str, Int]), [SS, Test, N42]);
  }

  /** `frag_format!("%s", "test")` is "%s__test", in every spelling of the literal. */
  lemma FormatString()
    ensures FragFormat(QuotedS, [StrVal(Test)]) == Success(STest)
    ensures FragFormat(RawS, [StrVal(Test)]) == Success(STest)
    ensures FragFormat(ByteS, [StrVal(Test)]) == Success(STest)
  {
    OneItem();
    EncodedTest();
    SpelledS();
    assert [S] + Fields([StrVal(Test)]) + [] == [S] + Fields([StrVal(Test)]);
    FormatsTo(Plain, S, [Str], [StrVal(Test)]);
    FormatsTo(Raw(1), S, [Str], [StrVal(Test)]);
    FormatsTo(ByteStr, S, [Str], [StrVal(Test)]);
  }

  /** `frag_format!("%d", 42)` is "%d__42". */
  lemma FormatInt()
    ensures FragFormat(QuotedD, [IntVal(42)]) == Success(D42)
  {
    OneItem();
    Encoded42();
    SpelledOthers();
    FormatsPlain(QuotedD, D, [Int], [IntVal(42)], D42);
  }

  /** `frag_format!("%s%d", "test", 42)` is "%s%d__test__42". */
  lemma FormatTwo()
    ensures FragFormat(QuotedSD, [StrVal(Test), IntVal(42)]) == Success(SDTest42)
  {
    TwoItems();
    EncodedSD();
    SpelledOthers();
    FormatsPlain(QuotedSD, SD, [Str, Int], [StrVal(Test), IntVal(42)], SDTest42);
  }

  /** `frag_format!("%d%s", 42, "test")` is "%d%s__42__test". */
  lemma FormatTwoSwapped()
    ensures FragFormat(QuotedDS, [IntVal(42), StrVal(Test)]) == Success(DSTest42)
  {
    TwoItems();
    EncodedDS();
    SpelledOthers();
    FormatsPlain(QuotedDS, DS, [Int, Str], [IntVal(42), StrVal(Test)], DSTest42);
  }

  /** The descriptors the encoder's tests expect to be refused. */
  lemma RefusedDescriptors()
    ensures ParseFormatString([]) == None
    ensures ParseFormatString(Xxx) == None
    ensures ParseFormatString(Star) == None
    ensures ParseFormatString(StarD) == None
    ensures ParseFormatString(DStar) == Some([Int, Any])
    ensures ParseFormatString(DD) == Some([Int, Int])
  {
    assert Star[..0] == [];
    ParseRender([Int, Any]);
    assert Render([Int, Any]) == DStar;
    ParseRender([Int, Int]);
    assert Render([Int, Int]) == DD;
  }

  /** `frag_format!` refuses the descriptors "", "xxx", "*", "*%d" and "%d*". */
  lemma FormatBadDescriptors()
    ensures FragFormat(Quoted([]), []) == Failure(FormatError.BadFormatString)
    ensures FragFormat(Quoted(Xxx), []) == Failure(FormatError.BadFormatString)
    ensures FragFormat(Quoted(Star), []) == Failure(FormatError.BadFormatString)
  {
    RefusedDescriptors();
    FormatRefused([], []);
    FormatRefused(Xxx, []);
    FormatRefused(Star, []);
  }

  lemma FormatBadWildcard()
    ensures FragFormat(Quoted(StarD), [IntVal(42)]) == Failure(FormatError.BadFormatString)
    ensures FragFormat(Quoted(DStar), [IntVal(42)]) == Failure(FormatError.BadFormatString)
  {
    RefusedDescriptors();
    FormatRefused(StarD, [IntVal(42)]);
    assert [Int, Any][1] == Any;
    FormatWildcardRefused(DStar, [Int, Any], [IntVal(42)]);
  }

  /** `frag_format!("%s")`: no argument for the item. */
  lemma FormatMissingArgument()
    ensures FragFormat(Quoted(S), []) == Failure(ArgCountMismatch)
  {
    OneItem();
    ParseSpell(Plain, S);
  }

  /** `frag_format!("%d%d", 42)`: one argument for two items. */
  lemma FormatTooFewArguments()
    ensures FragFormat(Quoted(DD), [IntVal(42)]) == Failure(ArgCountMismatch)
  {
    RefusedDescriptors();
    ParseSpell(Plain, DD);
  }

  /** `frag_format!(42)`: the descriptor is not a string literal. */
  lemma FormatNotLiteral()
    ensures FragFormat(N42, []) == Failure(FormatError.BadStringLiteral)
  {
  }

  /** A string argument where the descriptor has a `%d` item. */
  lemma FormatWrongType()
    ensures FragFormat(Quoted(D), [StrVal(Test)]) == Failure(ArgTypeMismatch(0))
  {
    OneItem();
    ParseSpell(Plain, D);
  }

  /** Compile-time errors of `frag_parse!`. */
  lemma ParseErrors()
    ensures FragParse(Quoted(Xxx), STest) == Failure(ParseError.BadFormatString)
    ensures FragParse(N42, STest) == Failure(ParseError.BadStringLiteral)
  {
    RefusedDescriptors();
    ParseRefused(Xxx, STest);
    NotALiteral();
  }

  /** `frag_parse!` with a plain literal whose text is not an accepted descriptor. */
  lemma ParseRefused(fmt: Bytes, input: Bytes)
    requires ParseFormatString(fmt).None?
    ensures FragParse(Quoted(fmt), input) == Failure(ParseError.BadFormatString)
  {
    ParseSpell(Plain, fmt);
    assert ParseStringLiteral(Quoted(fmt)) == Some(fmt);
  }

  /** The token `42` is not a string literal. */
  lemma NotALiteral()
    ensures ParseStringLiteral(N42).None?
  {
  }

  lemma DelimitedValue()
    ensures Join([S] + Fields([StrVal(AB)])) == SAB
    ensures Join([S, A, B]) == SAB && AllPlain([S, A, B])
  {
    assert [S] + Fields([StrVal(AB)]) == [S, AB];
    JoinPair(S, AB);
    JoinTriple(S, A, B);
  }

  /**
    A string value containing the delimiter survives encoding but not decoding:
    `frag_format!("%s", "a__b")` is "%s__a__b", which `frag_parse!("%s", …)` refuses.
  */
  lemma UnderscoreBreaksRoundTrip()
    ensures FragFormat(QuotedS, [StrVal(AB)]) == Success(SAB)
    ensures FragParse(QuotedS, SAB) == Success(None)
  {
    OneItem();
    SpelledS();
    DelimitedValue();
    FormatsTo(Plain, S, [Str], [StrVal(AB)]);
    RejectsShape(Plain, S, [Str], Matcher(S, false, [Str]), [S, A, B]);
  }

  lemma SpelledFoo()
    ensures Spell(Plain, []) == LitEmpty && Spell(Plain, Foo) == LitFoo
    ensures Spell(ByteStr, Foo) == LitByteFoo && Spell(Raw(0), Foo) == LitRawFoo
  {
  }

  lemma SpelledRawFoo()
    ensures Spell(Raw(3), Foo) == LitRaw3Foo
  {
    assert Hashes(3) == "###" by {
      assert Hashes(1) == "#";
      assert Hashes(2) == "##";
    }
  }

  /** Well-formed string literal tokens and their bodies. */
  lemma LiteralsAccepted()
    ensures ParseStringLiteral(LitEmpty) == Some([])
    ensures ParseStringLiteral(LitFoo) == Some(Foo)
    ensures ParseStringLiteral(LitByteFoo) == Some(Foo)
    ensures ParseStringLiteral(LitRawFoo) == Some(Foo)
    ensures ParseStringLiteral(LitRaw3Foo) == Some(Foo)
  {
    SpelledFoo();
    SpelledRawFoo();
    ParseSpell(Plain, []);
    ParseSpell(Plain, Foo);
    ParseSpell(ByteStr, Foo);
    ParseSpell(Raw(0), Foo);
    ParseSpell(Raw(3), Foo);
  }

  /** Tokens that are not string literals, or whose quotes or hashes do not balance. */
  lemma LiteralsRefused()
    ensures ParseStringLiteral([]) == None
    ensures ParseStringLiteral(LitQuote) == None
    ensures ParseStringLiteral(LitSingle) == None
    ensures ParseStringLiteral(LitOpenOnly) == None
    ensures ParseStringLiteral(LitCloseOnly) == None
    ensures ParseStringLiteral(LitRawOpen) == None
    ensures ParseStringLiteral(LitRawClose) == None
  {
    assert LitOpenOnly[|LitOpenOnly| - 1] == 'o';
    assert LitCloseOnly[0] == 'f';
    assert LitRawOpen[1..][|LitRawOpen| - 2] == '"';
    assert !Peelable(LitRawOpen[1..]);
    assert LitRawClose[1..][0] == '"';
    assert !Peelable(LitRawClose[1..]);
  }

  const Plus: Bytes := "+"
  const Minus: Bytes := "-"
  const N007: Bytes := "007"
  const N0: Bytes := "0"
  const TooBig: Bytes := "9223372036854775808"

  /**
    Integer fields as `str::parse::<i64>` reads them: a '+' sign, leading zeros
    and "-0" are accepted, and one past the largest `i64` is refused.
  */
  lemma IntTexts()
    ensures ParseI64(Plus + N42) == Some(42)
    ensures ParseI64(N007) == Some(7)
    ensures ParseI64(Minus + N0) == Some(0)
    ensures ParseI64(TooBig) == None
  {
    PlusSign();
    LeadingZeros();
    NegativeZero();
    Overflow();
  }

  lemma PlusSign()
    ensures ParseI64(Plus + N42) == Some(42)
  {
    Show42();
    ParseShow(42);
    ParseSigned([], N42);
    ParseSigned(Plus, N42);
  }

  lemma LeadingZeros()
    ensures ParseI64(N007) == Some(7)
  {
    assert DigitsValue(N007) == 7 by {
      assert N007[..2] == "00";
      assert "00"[..1] == "0";
    }
    assert [] + N007 == N007;
    ParseSigned([], N007);
  }

  lemma NegativeZero()
    ensures ParseI64(Minus + N0) == Some(0)
  {
    assert DigitsValue(N0) == 0 by {
      assert N0[..0] == [];
    }
    ParseSigned(Minus, N0);
  }

  /** One more digit: the value of a prefix one longer. */
  lemma DigitsPrefix(t: Bytes, k: nat, v: nat)
    requires AllDigits(t) && 1 <= k <= |t|
    requires DigitsValue(t[..k - 1]) == v
    ensures DigitsValue(t[..k]) == v * 10 + DigitValue(t[k - 1])
  {
    assert t[..k][..k - 1] == t[..k - 1];
  }

  lemma Overflow()
    ensures ParseI64(TooBig) == None
  {
    TooBigValue();
    assert [] + TooBig == TooBig;
    ParseSigned([], TooBig);
  }

  lemma TooBigValue()
    ensures DigitsValue(TooBig) == MaxI64 + 1
  {
    assert AllDigits(TooBig);
    TooBigDigits0();
    TooBigDigits1();
    TooBigDigits2();
    TooBigDigits3();
    assert TooBig[..19] == TooBig;
  }

  lemma TooBigDigits0()
    requires AllDigits(TooBig)
    ensures DigitsValue(TooBig[..5]) == 92233
  {
    assert TooBig[..0] == [];
    DigitsPrefix(TooBig, 1, 0);
    DigitsPrefix(TooBig, 2, 9);
    DigitsPrefix(TooBig, 3, 92);
    DigitsPrefix(TooBig, 4, 922);
    DigitsPrefix(TooBig, 5, 9223);
  }

  lemma TooBigDigits1()
    requires AllDigits(TooBig)
    ensures DigitsValue(TooBig[..10]) == 9223372036
  {
    TooBigDigits0();
    DigitsPrefix(TooBig, 6, 92233);
    DigitsPrefix(TooBig, 7, 922337);
    DigitsPrefix(TooBig, 8, 9223372);
    DigitsPrefix(TooBig, 9, 92233720);
    DigitsPrefix(TooBig, 10, 922337203);
  }

  lemma TooBigDigits2()
    requires AllDigits(TooBig)
    ensures DigitsValue(TooBig[..15]) == 922337203685477
  {
    TooBigDigits1();
    DigitsPrefix(TooBig, 11, 9223372036);
    DigitsPrefix(TooBig, 12, 92233720368);
    DigitsPrefix(TooBig, 13, 922337203685);
    DigitsPrefix(TooBig, 14, 9223372036854);
    DigitsPrefix(TooBig, 15, 92233720368547);
  }

  lemma TooBigDigits3()
    requires AllDigits(TooBig)
    ensures DigitsValue(TooBig[..19]) == 9223372036854775808
  {
    TooBigDigits2();
    DigitsPrefix(TooBig, 16, 922337203685477);
    DigitsPrefix(TooBig, 17, 9223372036854775);
    DigitsPrefix(TooBig, 18, 92233720368547758);
    DigitsPrefix(TooBig, 19, 922337203685477580);
  }

  const SSS: Bytes := "%s%s%s"
  const DDD: Bytes := "%d%d%d"
  const Baz: Bytes := "baz"
  const N1: Bytes := "1"
  const N2: Bytes := "2"
  const N3: Bytes := "3"
  const QuotedSSS: Bytes := "\"%s%s%s\""
  const QuotedDDD: Bytes := "\"%d%d%d\""
  const QuotedSDS: Bytes := "\"%s%d%s\""
  const SSSFooBarBaz: Bytes := "%s%s%s__foo__bar__baz"
  const DDD123: Bytes := "%d%d%d__1__2__3"
  const SDSFoo42Bar: Bytes := "%s%d%s__foo__42__bar"

  lemma SSSItems()
    ensures ParseFormatString(SSS) == Some([Str, Str, Str])
  {
    ParseRender([Str, Str, Str]);
    assert Render([Str, Str, Str]) == SSS;
  }

  lemma DDDItems()
    ensures ParseFormatString(DDD) == Some([Int, Int, Int])
  {
    ParseRender([Int, Int, Int]);
    assert Render([Int, Int, Int]) == DDD;
  }

  lemma SDSItems()
    ensures ParseFormatString(SDS) == Some([Str, Int, Str])
  {
    ParseRender([Str, Int, Str]);
    assert Render([Str, Int, Str]) == SDS;
  }

  /**
    `frag_parse!` with a plain literal and a descriptor without the wildcard, on
    the descriptor followed by the fields of fitting, underscore-free values.
  */
  lemma ParsesPlain(fmt: Bytes, items: seq<FormatItem>, args: seq<Value>)
    requires ParseFormatString(fmt) == Some(items) && NoWildcard(items) && NoUnderscore(fmt)
    requires |items| == |args| && forall i :: 0 <= i < |args| ==> Fits(items[i], args[i])
    requires PlainStrings(args)
    ensures FragParse(Spell(Plain, fmt), Join([fmt] + Fields(args) + [])) == Success(Some(args))
  {
    var m := Compile(fmt, items);
    assert !m.wildcard;
    ParsesTo(Plain, fmt, items, m, fmt, args, []);
  }

  lemma SpelledThree()
    ensures Spell(Plain, SSS) == QuotedSSS && Spell(Plain, DDD) == QuotedDDD
    ensures Spell(Plain, SDS) == QuotedSDS
  {
  }

  lemma ShowDigits()
    ensures ShowI64(1) == N1 && ShowI64(2) == N2 && ShowI64(3) == N3
  {
    assert NatDigits(1) == [Digit(1)];
    assert NatDigits(2) == [Digit(2)];
    assert NatDigits(3) == [Digit(3)];
  }

  lemma EncodedSSS()
    ensures Join([SSS] + Fields([StrVal(Foo), StrVal(Bar), StrVal(Baz)]) + []) == SSSFooBarBaz
  {
    var fs := Fields([StrVal(Foo), StrVal(Bar), StrVal(Baz)]);
    assert fs == [Foo, Bar, Baz];
    assert [SSS] + fs + [] == [SSS, Foo, Bar, Baz];
    JoinQuad(SSS, Foo, Bar, Baz);
    SpelledSSSInput();
  }

  lemma SpelledSSSInput()
    ensures SSS + Delim + Foo + Delim + Bar + Delim + Baz == SSSFooBarBaz
  {
  }

  lemma EncodedDDD()
    ensures Join([DDD] + Fields([IntVal(1), IntVal(2), IntVal(3)]) + []) == DDD123
  {
    ShowDigits();
    var fs := Fields([IntVal(1), IntVal(2), IntVal(3)]);
    assert fs == [N1, N2, N3];
    assert [DDD] + fs + [] == [DDD, N1, N2, N3];
    JoinQuad(DDD, N1, N2, N3);
    SpelledDDDInput();
  }

  lemma SpelledDDDInput()
    ensures DDD + Delim + N1 + Delim + N2 + Delim + N3 == DDD123
  {
  }

  lemma EncodedSDSFoo()
    ensures Join([SDS] + Fields([StrVal(Foo), IntVal(42), StrVal(Bar)]) + []) == SDSFoo42Bar
  {
    Show42();
    var fs := Fields([StrVal(Foo), IntVal(42), StrVal(Bar)]);
    assert fs == [Foo, N42, Bar];
    assert [SDS] + fs + [] == [SDS, Foo, N42, Bar];
    JoinQuad(SDS, Foo, N42, Bar);
    SpelledSDSInput();
  }

  lemma SpelledSDSInput()
    ensures SDS + Delim + Foo + Delim + N42 + Delim + Bar == SDSFoo42Bar
  {
  }

  lemma ThreePlain()
    ensures NoUnderscore(SSS) && NoUnderscore(DDD) && NoUnderscore(SDS)
    ensures PlainStrings([StrVal(Foo), StrVal(Bar), StrVal(Baz)])
    ensures PlainStrings([IntVal(1), IntVal(2), IntVal(3)])
    ensures PlainStrings([StrVal(Foo), IntVal(42), StrVal(Bar)])
  {
  }

  /** `frag_parse!("%s%s%s", "%s%s%s__foo__bar__baz")` reads three strings. */
  lemma ParseThreeStrings()
    ensures FragParse(QuotedSSS, SSSFooBarBaz) == Success(Some([StrVal(Foo), StrVal(Bar), StrVal(Baz)]))
  {
    SSSItems();
    SpelledThree();
    EncodedSSS();
    ThreePlain();
    ParsesPlain(SSS, [Str, Str, Str], [StrVal(Foo), StrVal(Bar), StrVal(Baz)]);
  }

  /** `frag_parse!("%d%d%d", "%d%d%d__1__2__3")` reads three integers. */
  lemma ParseThreeInts()
    ensures FragParse(QuotedDDD, DDD123) == Success(Some([IntVal(1), IntVal(2), IntVal(3)]))
  {
    DDDItems();
    SpelledThree();
    EncodedDDD();
    ThreePlain();
    ParsesPlain(DDD, [Int, Int, Int], [IntVal(1), IntVal(2), IntVal(3)]);
  }

  /** `frag_parse!("%s%d%s", "%s%d%s__foo__42__bar")` reads a string, an integer and a string. */
  lemma ParseMixedThree()
    ensures FragParse(QuotedSDS, SDSFoo42Bar) == Success(Some([StrVal(Foo), IntVal(42), StrVal(Bar)]))
  {
    SDSItems();
    SpelledThree();
    EncodedSDSFoo();
    ThreePlain();
    ParsesPlain(SDS, [Str, Int, Str], [StrVal(Foo), IntVal(42), StrVal(Bar)]);
  }
}
