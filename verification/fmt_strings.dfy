/**
  The format descriptor: a text such as "%s%d*" read as byte pairs "%s" (a string
  item) and "%d" (an integer item), optionally closed by one '*' (the wildcard,
  "any further fragments").
*/
module FmtStrings {
  import opened Bytes
  import opened Wrappers

  /** `fmt_strings::FormatItem` */
  datatype FormatItem = Any | Str | Int

  /** The descriptor text of one item. */
  function ItemText(item: FormatItem): Bytes {
    match item
    case Str => "%s"
    case Int => "%d"
    case Any => "*"
  }

  /** The descriptor text of a list of items. */
  function Render(items: seq<FormatItem>): Bytes {
    if |items| == 0 then [] else ItemText(items[0]) + Render(items[1..])
  }

  /** No item of the list is the wildcard. */
  predicate NoWildcard(items: seq<FormatItem>) {
    Any !in items
  }

  /**
    The item lists a descriptor can stand for: at least one item, the wildcard
    at most once and only last, and never alone.
  */
  predicate Valid(items: seq<FormatItem>) {
    && |items| >= 1
    && NoWildcard(items[..|items| - 1])
    && (items[|items| - 1] == Any ==> |items| >= 2)
  }

  /** A byte that can occur in an accepted descriptor. */
  predicate DescriptorByte(c: Byte) {
    c == '%' || c == 's' || c == 'd' || c == '*'
  }

  /** The `for (ch1, ch2) in fmt.bytes().tuples()` loop over an even-length text. */
  function ParsePairs(b: Bytes): (r: Option<seq<FormatItem>>)
    requires |b| % 2 == 0
    ensures r.Some? ==> NoWildcard(r.value) && Render(r.value) == b
    decreases |b|
  {
    if |b| == 0 then Some([])
    else if b[0] != '%' then None
    else if b[1] != 's' && b[1] != 'd' then None
    else
      var item := if b[1] == 's' then Str else Int;
      match ParsePairs(b[2..])
      case None => None
      case Some(rest) =>
        assert b == ItemText(item) + b[2..];
        Some([item] + rest)
  }

  /**
    `parse_format_string`: an odd length is allowed only with a trailing '*',
    which `tuples()` leaves out of the pairs and which becomes a final `Any`
    provided at least one item precedes it. On success the items render back
    to the descriptor, one item per pair plus one for the '*'.
  */
  function ParseFormatString(fmt: Bytes): (r: Option<seq<FormatItem>>)
    ensures |fmt| == 0 ==> r.None?
    ensures r.Some? ==> Valid(r.value) && Render(r.value) == fmt
  {
    if |fmt| == 0 then None
    else if |fmt| % 2 == 0 then
      var r := ParsePairs(fmt);
      if r.Some? then
        assert r.value[..|r.value| - 1] + [r.value[|r.value| - 1]] == r.value;
        r
      else r
    else if fmt[|fmt| - 1] != '*' then None
    else
      match ParsePairs(fmt[..|fmt| - 1])
      case None => None
      case Some(res) =>
        if |res| == 0 then None
        else
          WildcardSound(res, fmt);
          Some(res + [Any])
  }

  lemma WildcardSound(res: seq<FormatItem>, fmt: Bytes)
    requires |fmt| >= 1 && fmt[|fmt| - 1] == '*'
    requires |res| >= 1 && NoWildcard(res)
    requires Render(res) == fmt[..|fmt| - 1]
    ensures Valid(res + [Any]) && Render(res + [Any]) == fmt
  {
    WildcardValid(res);
    RenderWildcard(res);
    StarLast(fmt);
  }

  lemma WildcardValid(res: seq<FormatItem>)
    requires |res| >= 1 && NoWildcard(res)
    ensures Valid(res + [Any])
  {
    var w := res + [Any];
    assert w[..|w| - 1] == res;
  }

  lemma StarLast(fmt: Bytes)
    requires |fmt| >= 1 && fmt[|fmt| - 1] == '*'
    ensures fmt[..|fmt| - 1] + "*" == fmt
  {
    assert fmt[..|fmt| - 1] + [fmt[|fmt| - 1]] == fmt;
  }

  lemma {:induction false} RenderAppend(a: seq<FormatItem>, b: seq<FormatItem>)
    ensures Render(a + b) == Render(a) + Render(b)
    decreases |a|
  {
    if |a| > 0 {
      assert (a + b)[1..] == a[1..] + b;
      RenderAppend(a[1..], b);
    } else {
      assert a + b == b;
    }
  }

  lemma {:induction false} RenderLength(items: seq<FormatItem>)
    requires NoWildcard(items)
    ensures |Render(items)| == 2 * |items|
    decreases |items|
  {
    if |items| > 0 {
      RenderLength(items[1..]);
    }
  }

  lemma {:induction false} ParsePairsRender(items: seq<FormatItem>)
    requires NoWildcard(items)
    ensures |Render(items)| % 2 == 0
    ensures ParsePairs(Render(items)) == Some(items)
    decreases |items|
  {
    RenderLength(items);
    if |items| > 0 {
      var b := Render(items);
      ParsePairsRender(items[1..]);
      assert b[2..] == Render(items[1..]);
      assert [items[0]] + items[1..] == items;
    }
  }

  /** Every valid item list is read back from its rendering. */
  lemma ParseRender(items: seq<FormatItem>)
    requires Valid(items)
    ensures ParseFormatString(Render(items)) == Some(items)
  {
    if items[|items| - 1] == Any {
      ParseRenderWildcard(items[..|items| - 1]);
      assert items == items[..|items| - 1] + [Any];
    } else {
      assert NoWildcard(items);
      ParseRenderPlain(items);
    }
  }

  lemma ParseRenderPlain(items: seq<FormatItem>)
    requires |items| >= 1 && NoWildcard(items)
    ensures ParseFormatString(Render(items)) == Some(items)
  {
    RenderLength(items);
    ParsePairsRender(items);
  }

  lemma ParseRenderWildcard(init: seq<FormatItem>)
    requires |init| >= 1 && NoWildcard(init)
    ensures ParseFormatString(Render(init + [Any])) == Some(init + [Any])
  {
    RenderWildcard(init);
    RenderLength(init);
    ParsePairsRender(init);
    ParseStarred(init, Render(init) + "*");
  }

  lemma ParseStarred(init: seq<FormatItem>, fmt: Bytes)
    requires |init| >= 1 && NoWildcard(init)
    requires |Render(init)| == 2 * |init| && ParsePairs(Render(init)) == Some(init)
    requires fmt == Render(init) + "*"
    ensures ParseFormatString(fmt) == Some(init + [Any])
  {
    Parity(|fmt|, |init|);
    assert fmt[..|fmt| - 1] == Render(init);
  }

  lemma Parity(n: nat, k: nat)
    requires n == 2 * k + 1
    ensures n % 2 == 1
  {
  }

  lemma RenderWildcard(init: seq<FormatItem>)
    ensures Render(init + [Any]) == Render(init) + "*"
  {
    RenderAppend(init, [Any]);
    assert Render([Any]) == "*";
  }

  /**
    A descriptor is accepted with items `items` exactly when `items` is a valid
    list whose rendering is the descriptor: one or more "%s"/"%d" and an
    optional single trailing '*'. Everything else (the empty text, a lone '%',
    "%%", any other byte, a '*' anywhere but last or with nothing before it)
    is rejected.
  */
  lemma ParseIff(fmt: Bytes, items: seq<FormatItem>)
    ensures ParseFormatString(fmt) == Some(items) <==> Valid(items) && Render(items) == fmt
  {
    if Valid(items) && Render(items) == fmt {
      ParseRender(items);
    }
  }

  lemma {:induction false} RenderBytes(items: seq<FormatItem>)
    ensures forall i :: 0 <= i < |Render(items)| ==> DescriptorByte(Render(items)[i])
    decreases |items|
  {
    if |items| > 0 {
      RenderBytes(items[1..]);
    }
  }

  /** An accepted descriptor consists of '%', 's', 'd' and '*' only. */
  lemma AcceptedBytes(fmt: Bytes)
    requires ParseFormatString(fmt).Some?
    ensures forall i :: 0 <= i < |fmt| ==> DescriptorByte(fmt[i])
  {
    RenderBytes(ParseFormatString(fmt).value);
  }

  /**
    The shape of an accepted descriptor: it ends in the wildcard exactly when
    its length is odd, and it has one item per byte pair plus one for a '*'.
  */
  lemma ItemCount(fmt: Bytes)
    requires ParseFormatString(fmt).Some?
    ensures var items := ParseFormatString(fmt).value;
      && (items[|items| - 1] == Any <==> |fmt| % 2 == 1)
      && |items| == |fmt| / 2 + |fmt| % 2
  {
    var items := ParseFormatString(fmt).value;
    var last := items[|items| - 1];
    var init := items[..|items| - 1];
    assert items == init + [last];
    RenderAppend(init, [last]);
    RenderLength(init);
    if last == Any {
      assert |fmt| == 2 * |init| + 1;
      Parity(|fmt|, |init|);
    } else {
      assert |fmt| == 2 * |init| + 2;
    }
  }

  /** Outcomes the source's own unit test pins down. */
  lemma Examples()
    ensures ParseFormatString("") == None
    ensures ParseFormatString("%s") == Some([Str])
    ensures ParseFormatString("%d%s") == Some([Int, Str])
    ensures ParseFormatString("%") == None
    ensures ParseFormatString("%%") == None
    ensures ParseFormatString("%sx") == None
    ensures ParseFormatString(" %s") == None
    ensures ParseFormatString("*") == None
    ensures ParseFormatString("*%s") == None
    ensures ParseFormatString("%s%d*") == Some([Str, Int, Any])
  {
    ParseRender([Str]);
    assert Render([Str]) == "%s";
    ParseRender([Int, Str]);
    assert Render([Int, Str]) == "%d%s";
    ParseRender([Str, Int, Any]);
    assert Render([Str, Int, Any]) == "%s%d*";
  }
}
