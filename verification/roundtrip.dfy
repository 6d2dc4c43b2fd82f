/**
  The two macros against each other: what `frag_format!` writes, `frag_parse!`
  with the same descriptor reads back, as long as no string value contains an
  underscore (the delimiter is not escaped).
*/
module RoundTrip {
  import opened Bytes
  import opened Wrappers
  import opened Ints
  import opened Fragments
  import opened Literals
  import opened FmtStrings
  import opened Values
  import opened Format
  import opened Parse

  /** No string value contains an underscore. */
  predicate PlainStrings(args: seq<Value>) {
    forall i :: 0 <= i < |args| ==> (args[i].StrVal? ==> NoUnderscore(args[i].s))
  }

  /** No piece contains an underscore. */
  predicate AllPlain(pieces: seq<Bytes>) {
    forall j :: 0 <= j < |pieces| ==> NoUnderscore(pieces[j])
  }

  lemma PlainConcat(a: seq<Bytes>, b: seq<Bytes>)
    requires AllPlain(a) && AllPlain(b)
    ensures AllPlain(a + b)
  {
    forall j | 0 <= j < |a + b|
      ensures NoUnderscore((a + b)[j])
    {
      if j >= |a| {
        assert (a + b)[j] == b[j - |a|];
      }
    }
  }

  /** The fields of plain values contain no underscore. */
  lemma FieldsPlain(args: seq<Value>)
    requires PlainStrings(args)
    ensures AllPlain(Fields(args))
  {
    forall i | 0 <= i < |args|
      ensures NoUnderscore(Fields(args)[i])
    {
      if args[i].IntVal? {
        assert Fields(args)[i] == ShowI64(args[i].n);
      }
    }
  }

  /** Each value is what its item reads back out of the value's own field. */
  lemma FieldsDecode(items: seq<FormatItem>, args: seq<Value>)
    requires |items| == |args|
    requires forall i :: 0 <= i < |args| ==> Fits(items[i], args[i])
    ensures forall i :: 0 <= i < |args| ==> Decodes(items[i], Fields(args)[i], args[i])
  {
    forall i | 0 <= i < |args|
      ensures Decodes(items[i], Fields(args)[i], args[i])
    {
      if items[i] == Int {
        ParseShow(args[i].n);
      }
    }
  }

  /**
    A decoder reads the values back out of their fields joined behind a plain
    first fragment that passes its pattern check; with the wildcard, also when
    plain fragments follow them.
  */
  lemma DecodeJoined(m: Matcher, head: Bytes, args: seq<Value>, extra: seq<Bytes>)
    requires WellFormed(m) && NoUnderscore(head) && PatternMatches(m, head)
    requires |m.items| == |args| && forall i :: 0 <= i < |args| ==> Fits(m.items[i], args[i])
    requires PlainStrings(args) && AllPlain(extra)
    requires m.wildcard || extra == []
    ensures Run(m, Join([head] + Fields(args) + extra)) == Some(args)
  {
    var fields := Fields(args);
    var pieces := [head] + fields + extra;
    FieldsDecode(m.items, args);
    FieldsPlain(args);
    PlainConcat([head], fields);
    PlainConcat([head] + fields, extra);
    NoUnderscoreSplittable(pieces);
    SplitJoin(pieces);
    var input := Join(pieces);
    assert Split(input) == pieces;
    assert pieces[0] == head;
    assert forall i :: 0 <= i < |args| ==> pieces[i + 1] == fields[i];
    assert Accepts(m, input, args);
    RunComplete(m, input, args);
  }

  /** Decoding an encoded value under the same descriptor gives the values back. */
  lemma DecodeEncoded(fmt: Bytes, args: seq<Value>)
    requires FormatDescriptor(fmt, args).Success? && PlainStrings(args)
    ensures Run(Compile(fmt, ParseFormatString(fmt).value), FormatDescriptor(fmt, args).value) == Some(args)
  {
    var m := Compile(fmt, ParseFormatString(fmt).value);
    AcceptedBytes(fmt);
    assert [fmt] + Fields(args) + [] == [fmt] + Fields(args);
    DecodeJoined(m, fmt, args, []);
  }

  /** Adding '*' to an accepted descriptor that has no wildcard yet adds one `Any`. */
  lemma AppendStar(fmt: Bytes)
    requires ParseFormatString(fmt).Some? && NoWildcard(ParseFormatString(fmt).value)
    ensures ParseFormatString(fmt + "*") == Some(ParseFormatString(fmt).value + [Any])
  {
    var items := ParseFormatString(fmt).value;
    FmtStrings.ParseIff(fmt, items);
    RenderWildcard(items);
    FmtStrings.ParseIff(fmt + "*", items + [Any]);
  }

  /**
    The same descriptor with '*' added reads the values back out of the encoded
    value even when further plain fragments follow it.
  */
  lemma DecodeEncodedOpen(fmt: Bytes, args: seq<Value>, extra: seq<Bytes>)
    requires FormatDescriptor(fmt, args).Success? && PlainStrings(args)
    requires AllPlain(extra)
    ensures ParseFormatString(fmt + "*").Some?
    ensures ParseFormatString(fmt + "*").Some? &&
      var items := ParseFormatString(fmt + "*").value;
      Run(Compile(fmt + "*", items), FormatDescriptor(fmt, args).value + Glued(extra)) == Some(args)
  {
    var items := ParseFormatString(fmt).value;
    AppendStar(fmt);
    OpenDecode(fmt, items, args, extra);
  }

  lemma OpenDecode(fmt: Bytes, items: seq<FormatItem>, args: seq<Value>, extra: seq<Bytes>)
    requires ParseFormatString(fmt) == Some(items) && NoWildcard(items)
    requires |items| == |args| && forall i :: 0 <= i < |args| ==> Fits(items[i], args[i])
    requires PlainStrings(args) && AllPlain(extra)
    requires ParseFormatString(fmt + "*") == Some(items + [Any])
    ensures Run(Compile(fmt + "*", items + [Any]), Join([fmt] + Fields(args)) + Glued(extra)) == Some(args)
  {
    var mo := Compile(fmt + "*", items + [Any]);
    assert mo.items == items && mo.pattern == fmt;
    AcceptedBytes(fmt);
    assert StartsWith(fmt, fmt);
    DecodeJoined(mo, fmt, args, extra);
    JoinAppend([fmt] + Fields(args), extra);
  }

  /** Appending pieces to a join appends them glued. */
  lemma {:induction false} JoinAppend(pieces: seq<Bytes>, extra: seq<Bytes>)
    requires |pieces| >= 1
    ensures Join(pieces + extra) == Join(pieces) + Glued(extra)
    decreases |pieces|
  {
    if |pieces| == 1 {
      JoinGlued(pieces[0], extra);
      assert pieces + extra == [pieces[0]] + extra;
    } else {
      assert (pieces + extra)[1..] == pieces[1..] + extra;
      JoinAppend(pieces[1..], extra);
    }
  }

  /**
    `frag_parse!(lit, frag_format!(lit, args...))` returns the arguments, for any
    descriptor literal `frag_format!` accepts and string arguments without '_'.
  */
  lemma FormatThenParse(lit: Bytes, args: seq<Value>)
    requires FragFormat(lit, args).Success? && PlainStrings(args)
    ensures FragParse(lit, FragFormat(lit, args).value) == Success(Some(args))
  {
    var fmt := ParseStringLiteral(lit).value;
    DecodeEncoded(fmt, args);
  }
}
