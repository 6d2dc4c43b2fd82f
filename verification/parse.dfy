/**
  What `frag_parse!(descriptor, input)` expands to and evaluates to. The
  descriptor literal is checked when the macro expands; the generated code splits
  the input on "__", checks the first fragment against the descriptor, lets each
  item take the next fragment, and returns the tuple of decoded values or None.

  The generated code is a fixed template driven by the item list, so it is
  modelled here as one interpreter over a `Matcher`.
*/
module Parse {
  import opened Bytes
  import opened Wrappers
  import opened Ints
  import opened Fragments
  import opened Literals
  import opened FmtStrings
  import opened Values

  /** The compile errors `frag_parse!` reports about its descriptor. */
  datatype ParseError = BadStringLiteral | BadFormatString

  /**
    What the macro bakes into the generated code: the text the first fragment is
    checked against (the descriptor, without its '*' if it has one), whether the
    descriptor had the wildcard, and the items other than the wildcard.
  */
  datatype Matcher = Matcher(pattern: Bytes, wildcard: bool, items: seq<FormatItem>)

  /** A matcher the macro can produce: no wildcard among the items it consumes with. */
  predicate WellFormed(m: Matcher) {
    NoWildcard(m.items)
  }

  /**
    Dropping a trailing `Any` and the '*' that spelled it. The pattern is then
    the rendering of the remaining items, and the descriptor is the pattern
    with the '*' put back when there was one.
  */
  function Compile(fmt: Bytes, items: seq<FormatItem>): (m: Matcher)
    requires ParseFormatString(fmt) == Some(items)
    ensures WellFormed(m) && |m.items| >= 1
    ensures m.wildcard <==> items[|items| - 1] == Any
    ensures Render(m.items) == m.pattern
    ensures fmt == if m.wildcard then m.pattern + "*" else m.pattern
    ensures items == if m.wildcard then m.items + [Any] else m.items
  {
    var init := items[..|items| - 1];
    assert items == init + [items[|items| - 1]];
    if items[|items| - 1] == Any then
      RenderWildcard(init);
      assert fmt[..|fmt| - 1] + "*" == fmt;
      Matcher(fmt[..|fmt| - 1], true, init)
    else
      Matcher(fmt, false, items)
  }

  /**
    The value an item reads out of a fragment, in the generated code's terms: a
    string item takes the fragment as is; an integer item needs the fragment to
    parse as an `i64`.
  */
  predicate Decodes(item: FormatItem, frag: Bytes, v: Value) {
    match item
    case Str => v == StrVal(frag)
    case Int => v.IntVal? && ParseI64(frag) == Some(v.n)
    case Any => false
  }

  /**
    One item's `let _i = if let Some(value) = fragments.next() { ... } else { ... }`:
    whether it succeeded, and the value (the placeholder "" or 0 on failure).
  */
  function TakeOne(item: FormatItem, next: Option<Bytes>): (r: (bool, Value))
    requires item != Any
    ensures r.0 <==> next.Some? && Decodes(item, next.value, r.1)
  {
    match next
    case None => (false, if item == Str then StrVal([]) else IntVal(0))
    case Some(frag) =>
      if item == Str then (true, StrVal(frag))
      else
        match ParseI64(frag)
        case Some(n) => (true, IntVal(n))
        case None => (false, IntVal(0))
  }

  /** The state after all items have taken their fragments. */
  datatype Consumed = Consumed(ok: bool, values: seq<Value>, rest: seq<Bytes>)

  /**
    The items, in order, each taking the next data fragment; once the fragments
    run out every further item fails. `ok` holds exactly when there was a
    fragment for every item and each one decoded; `rest` is what is left over.
  */
  function TakeItems(items: seq<FormatItem>, frags: seq<Bytes>): (c: Consumed)
    requires NoWildcard(items)
    ensures |c.values| == |items|
    ensures c.ok <==> |items| <= |frags| && forall i :: 0 <= i < |items| ==> Decodes(items[i], frags[i], c.values[i])
    ensures c.rest == if |items| <= |frags| then frags[|items|..] else []
    decreases |items|
  {
    if |items| == 0 then Consumed(true, [], frags)
    else
      var next := if |frags| > 0 then Some(frags[0]) else None;
      var first := TakeOne(items[0], next);
      var c := TakeItems(items[1..], if |frags| > 0 then frags[1..] else []);
      Consumed(first.0 && c.ok, [first.1] + c.values, c.rest)
  }

  /**
    The generated code once the pattern check has passed: every item must have
    decoded, and without the wildcard no fragment may be left over.
  */
  function Body(m: Matcher, data: seq<Bytes>): Option<seq<Value>>
    requires WellFormed(m)
  {
    var c := TakeItems(m.items, data);
    var allGood := m.wildcard || |c.rest| == 0;
    if c.ok && allGood then Some(c.values) else None
  }

  /** The pattern check: equality, or for a wildcard descriptor a prefix test. */
  predicate PatternMatches(m: Matcher, first: Bytes) {
    if m.wildcard then StartsWith(first, m.pattern) else first == m.pattern
  }

  /**
    Declarative reading of a successful decode: the first fragment passes the
    pattern check, there is one data fragment per item (exactly one without the
    wildcard, at least one with it), and each value is what its item reads out
    of its fragment.
  */
  predicate Accepts(m: Matcher, input: Bytes, vals: seq<Value>) {
    var frags := Split(input);
    && PatternMatches(m, frags[0])
    && |vals| == |m.items|
    && |m.items| + 1 <= |frags|
    && (!m.wildcard ==> |frags| == |m.items| + 1)
    && forall i :: 0 <= i < |vals| ==> Decodes(m.items[i], frags[i + 1], vals[i])
  }

  /**
    The generated code, with the wildcard's pattern check written as
    `starts_with`. A successful result is one `Accepts` allows.
  */
  function Run(m: Matcher, input: Bytes): (r: Option<seq<Value>>)
    requires WellFormed(m)
    ensures r.Some? ==> Accepts(m, input, r.value)
  {
    var frags := Split(input);
    if PatternMatches(m, frags[0]) then
      var r := Body(m, frags[1..]);
      assert r.Some? ==> |m.items| <= |frags[1..]|;
      r
    else None
  }

  /** What the generated code can do: panic, or return a value. */
  datatype Outcome = Panicked | Returned(result: Option<seq<Value>>)

  /**
    The generated code exactly as written. With the wildcard, the check is
    `pattern.len() >= n && &pattern[0..n] == prefix`, and slicing a `&str` at a
    byte index that is not a character boundary panics. Only a wildcard
    descriptor can panic, and a returned tuple is one `Accepts` allows.
  */
  function RunAsWritten(m: Matcher, input: Bytes): (r: Outcome)
    requires WellFormed(m)
    ensures r.Panicked? ==> m.wildcard
    ensures r.Returned? && r.result.Some? ==> Accepts(m, input, r.result.value)
  {
    var frags := Split(input);
    var pattern := frags[0];
    var n := |m.pattern|;
    if m.wildcard && |pattern| >= n && !IsCharBoundary(pattern, n) then Panicked
    else
      var ok := if m.wildcard then |pattern| >= n && pattern[..n] == m.pattern else pattern == m.pattern;
      Returned(if ok then Body(m, frags[1..]) else None)
  }

  /**
    `frag_parse!(lit, input)`: the literal's text must be an accepted
    descriptor; the value is then what the generated code returns on `input`.
  */
  function FragParse(lit: Bytes, input: Bytes): (r: Result<Option<seq<Value>>, ParseError>)
    ensures ParseStringLiteral(lit).None? ==> r == Failure(BadStringLiteral)
    ensures r.Success? <==> ParseStringLiteral(lit).Some? && ParseFormatString(ParseStringLiteral(lit).value).Some?
    ensures ParseStringLiteral(lit).Some? && ParseFormatString(ParseStringLiteral(lit).value).None? ==>
      r == Failure(BadFormatString)
    ensures r.Success? && r.value.Some? ==>
      var fmt := ParseStringLiteral(lit).value;
      Accepts(Compile(fmt, ParseFormatString(fmt).value), input, r.value.value)
    ensures r.Success? && r.value.None? ==>
      var fmt := ParseStringLiteral(lit).value;
      forall vals :: !Accepts(Compile(fmt, ParseFormatString(fmt).value), input, vals)
  {
    match ParseStringLiteral(lit)
    case None => Failure(BadStringLiteral)
    case Some(fmt) =>
      match ParseFormatString(fmt)
      case None => Failure(BadFormatString)
      case Some(items) =>
        var m := Compile(fmt, items);
        RunNone(m, input);
        Success(Run(m, input))
  }

  /** When the decoder returns None, no values are acceptable. */
  lemma RunNone(m: Matcher, input: Bytes)
    requires WellFormed(m)
    ensures Run(m, input).None? ==> forall vals :: !Accepts(m, input, vals)
  {
    forall vals | Accepts(m, input, vals)
      ensures Run(m, input).Some?
    {
      RunComplete(m, input, vals);
    }
  }

  /** An item reads at most one value out of a fragment. */
  lemma DecodesUnique(item: FormatItem, frag: Bytes, v: Value, w: Value)
    requires Decodes(item, frag, v) && Decodes(item, frag, w)
    ensures v == w
  {
  }

  /** Items whose fragments all decode take exactly the decoded values. */
  lemma {:induction false} TakeItemsComplete(items: seq<FormatItem>, frags: seq<Bytes>, vals: seq<Value>)
    requires NoWildcard(items)
    requires |vals| == |items| <= |frags|
    requires forall i :: 0 <= i < |items| ==> Decodes(items[i], frags[i], vals[i])
    ensures TakeItems(items, frags).ok && TakeItems(items, frags).values == vals
    decreases |items|
  {
    if |items| > 0 {
      var first := TakeOne(items[0], Some(frags[0]));
      TakeOneComplete(items[0], frags[0], vals[0]);
      var tail := TakeItems(items[1..], frags[1..]);
      forall i | 0 <= i < |items| - 1
        ensures Decodes(items[1..][i], frags[1..][i], vals[1..][i])
      {
        assert Decodes(items[i + 1], frags[i + 1], vals[i + 1]);
      }
      TakeItemsComplete(items[1..], frags[1..], vals[1..]);
      assert TakeItems(items, frags) == Consumed(first.0 && tail.ok, [first.1] + tail.values, tail.rest);
      assert [vals[0]] + vals[1..] == vals;
    }
  }

  lemma TakeOneComplete(item: FormatItem, frag: Bytes, v: Value)
    requires item != Any && Decodes(item, frag, v)
    ensures TakeOne(item, Some(frag)) == (true, v)
  {
  }

  /** Everything `Accepts` allows is what the generated code returns. */
  lemma RunComplete(m: Matcher, input: Bytes, vals: seq<Value>)
    requires WellFormed(m)
    requires Accepts(m, input, vals)
    ensures Run(m, input) == Some(vals)
  {
    var frags := Split(input);
    var data := frags[1..];
    TakeItemsComplete(m.items, data, vals);
    if !m.wildcard {
      assert TakeItems(m.items, data).rest == [];
    }
  }

  /** The decoder's result is characterized by `Accepts`, in both directions. */
  lemma RunIff(m: Matcher, input: Bytes, vals: seq<Value>)
    requires WellFormed(m)
    ensures Run(m, input) == Some(vals) <==> Accepts(m, input, vals)
  {
    if Accepts(m, input, vals) {
      RunComplete(m, input, vals);
    }
  }

  /**
    The ways a decode fails: the first fragment fails the pattern check (without
    the wildcard it must equal the descriptor), fewer data fragments than items,
    an integer item whose fragment is not an `i64` (the empty one included), or,
    without the wildcard, a fragment left over.
  */
  lemma Rejections(m: Matcher, input: Bytes)
    requires WellFormed(m)
    ensures var frags := Split(input);
      && (!PatternMatches(m, frags[0]) ==> Run(m, input).None?)
      && (|frags| - 1 < |m.items| ==> Run(m, input).None?)
      && (forall i :: 0 <= i < |m.items| && i + 1 < |frags| && m.items[i] == Int && ParseI64(frags[i + 1]).None? ==> Run(m, input).None?)
      && (!m.wildcard && |frags| - 1 > |m.items| ==> Run(m, input).None?)
  {
  }

  /** Without the wildcard, a first fragment other than the descriptor text is refused. */
  lemma ClosedPatternRejects(m: Matcher, input: Bytes)
    requires WellFormed(m) && !m.wildcard && Split(input)[0] != m.pattern
    ensures Run(m, input).None?
  {
    Rejections(m, input);
  }

  /**
    With the wildcard, fragments after the last item's are ignored: two inputs
    that agree on the first fragment and on one data fragment per item decode
    alike.
  */
  lemma WildcardIgnoresTail(m: Matcher, a: Bytes, b: Bytes)
    requires WellFormed(m) && m.wildcard
    requires var n := |m.items| + 1;
      n <= |Split(a)| && n <= |Split(b)| && Split(a)[..n] == Split(b)[..n]
    ensures Run(m, a) == Run(m, b)
  {
    SamePrefix(Split(a), Split(b), |m.items| + 1);
    RunAgree(m, a, b);
  }

  /** Inputs whose fragments agree wherever a wildcard decode reads decode alike. */
  lemma RunAgree(m: Matcher, a: Bytes, b: Bytes)
    requires WellFormed(m) && m.wildcard
    requires |m.items| + 1 <= |Split(a)| && |m.items| + 1 <= |Split(b)|
    requires forall j :: 0 <= j < |m.items| + 1 ==> Split(a)[j] == Split(b)[j]
    ensures Run(m, a) == Run(m, b)
  {
    var ra, rb := Run(m, a), Run(m, b);
    if ra.Some? {
      RunSamePrefix(m, a, b);
      assert rb == ra;
    } else if rb.Some? {
      RunSamePrefix(m, b, a);
      assert ra == rb;
    } else {
      assert ra == rb;
    }
  }

  /** A wildcard decode that succeeds on `a` gives the same on `b` when their fragments agree on the prefix it reads. */
  lemma RunSamePrefix(m: Matcher, a: Bytes, b: Bytes)
    requires WellFormed(m) && m.wildcard && Run(m, a).Some?
    requires |m.items| + 1 <= |Split(b)|
    requires forall j :: 0 <= j < |m.items| + 1 ==> Split(a)[j] == Split(b)[j]
    ensures Run(m, b) == Run(m, a)
  {
    var vals := Run(m, a).value;
    AcceptsSamePrefix(m, a, b, vals);
    RunComplete(m, b, vals);
  }

  lemma SamePrefix(fa: seq<Bytes>, fb: seq<Bytes>, n: nat)
    requires n <= |fa| && n <= |fb| && fa[..n] == fb[..n]
    ensures forall j :: 0 <= j < n ==> fa[j] == fb[j]
  {
    forall j | 0 <= j < n
      ensures fa[j] == fb[j]
    {
      assert fa[j] == fa[..n][j];
    }
  }

  lemma AcceptsSamePrefix(m: Matcher, a: Bytes, b: Bytes, vals: seq<Value>)
    requires m.wildcard && Accepts(m, a, vals)
    requires |m.items| + 1 <= |Split(b)|
    requires forall j :: 0 <= j < |m.items| + 1 ==> Split(a)[j] == Split(b)[j]
    ensures Accepts(m, b, vals)
  {
  }

  /**
    The as-written code panics exactly when the descriptor has the wildcard and
    the input's first "__" (or its end) lies beyond the pattern's length, with a
    UTF-8 continuation byte right at that length: `&pattern[0..n]` then cuts a
    character in two.
  */
  lemma AsWrittenPanics(m: Matcher, input: Bytes)
    requires WellFormed(m)
    ensures RunAsWritten(m, input) == Panicked <==>
      var n := |m.pattern|;
      m.wildcard && 0 < n < FindDelim(input, 0) && IsContinuation(input[n])
  {
  }

  /** Whenever it does not panic, the as-written code returns what `Run` returns. */
  lemma AsWrittenAgrees(m: Matcher, input: Bytes)
    requires WellFormed(m)
    requires RunAsWritten(m, input) != Panicked
    ensures RunAsWritten(m, input) == Returned(Run(m, input))
  {
  }

  /**
    The descriptor "%s*" and the input "%é" (bytes 25 C3 A9): the first fragment
    is three bytes long and byte 2 is inside the 'é', so `&pattern[0..2]` panics
    where a decoder returning `Option` evidently meant to return None.
  */
  lemma PanicExample()
    ensures ParseFormatString("%s*") == Some([Str, Any])
    ensures var m := Compile("%s*", [Str, Any]);
      && RunAsWritten(m, "%\U{C3}\U{A9}") == Panicked
      && Run(m, "%\U{C3}\U{A9}") == None
  {
    ParseRender([Str, Any]);
    assert Render([Str, Any]) == "%s*";
    var input: Bytes := "%\U{C3}\U{A9}";
    assert NoDelim(input) by {
      forall i | 0 <= i < |input|
        ensures !DelimAt(input, i)
      {
      }
    }
    SplitNoDelim(input);
    var m := Compile("%s*", [Str, Any]);
    assert m.pattern == "%s";
    assert !StartsWith(input, m.pattern);
  }

  /** Only a non-ASCII byte can sit inside a character: ASCII input never panics. */
  lemma AsciiNeverPanics(m: Matcher, input: Bytes)
    requires WellFormed(m)
    requires forall i :: 0 <= i < |input| ==> input[i] < '\U{80}'
    ensures RunAsWritten(m, input) == Returned(Run(m, input))
  {
    var frags := Split(input);
    var first := frags[0];
    var n := |m.pattern|;
    if m.wildcard && n < |first| {
      JoinPrefix(frags);
      assert first[n] == input[n];
    }
  }
}
