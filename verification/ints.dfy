/**
  The two conversions between `i64` and text that the generated code relies on:
  `str::parse::<i64>` (decoding an integer field) and `i64`'s `Display`
  (encoding one inside `format!`).
*/
module Ints {
  import opened Bytes
  import opened Wrappers

  const MinI64: int := -0x8000_0000_0000_0000
  const MaxI64: int := 0x7fff_ffff_ffff_ffff

  /** Rust's `i64`. */
  type I64 = x: int | MinI64 <= x <= MaxI64

  predicate IsDigit(c: Byte) {
    '0' <= c <= '9'
  }

  predicate AllDigits(ds: Bytes) {
    forall i :: 0 <= i < |ds| ==> IsDigit(ds[i])
  }

  function DigitValue(c: Byte): nat
    requires IsDigit(c)
  {
    c as int - '0' as int
  }

  function Digit(d: nat): (c: Byte)
    requires d < 10
    ensures IsDigit(c) && DigitValue(c) == d
  {
    ('0' as int + d) as char
  }

  /** The number a run of decimal digits denotes, most significant first. */
  function DigitsValue(ds: Bytes): nat
    requires AllDigits(ds)
  {
    if |ds| == 0 then 0
    else DigitsValue(ds[..|ds| - 1]) * 10 + DigitValue(ds[|ds| - 1])
  }

  /**
    `s.parse::<i64>()`: an optional '+' or '-', then one or more ASCII digits,
    denoting a value inside the `i64` range. The empty text, a lone sign, any
    other byte and an overflowing value all fail.
  */
  function ParseI64(s: Bytes): (r: Option<I64>)
    ensures |s| == 0 ==> r.None?
    ensures r.Some? ==> |s| >= 1 && (IsDigit(s[0]) || s[0] == '+' || s[0] == '-')
    ensures r.Some? ==> AllDigits(s[1..]) && NoUnderscore(s)
    ensures r.Some? && r.value < 0 ==> s[0] == '-'
    ensures (s == "+" || s == "-") ==> r.None?
  {
    if |s| == 0 then None
    else
      var digits := if s[0] == '+' || s[0] == '-' then s[1..] else s;
      if |digits| == 0 || !AllDigits(digits) then None
      else
        var magnitude: int := DigitsValue(digits);
        var v: int := if s[0] == '-' then -magnitude else magnitude;
        if MinI64 <= v <= MaxI64 then Some(v) else None
  }

  /**
    Every text of the accepted shape parses: no sign, '+' or '-', then one or
    more digits (leading zeros allowed), giving the signed value of the digits
    when it lies in the `i64` range and failing when it does not.
  */
  lemma ParseSigned(sign: Bytes, ds: Bytes)
    requires sign == [] || sign == "+" || sign == "-"
    requires |ds| >= 1 && AllDigits(ds)
    ensures var v: int := if sign == "-" then -(DigitsValue(ds) as int) else DigitsValue(ds);
      && (ParseI64(sign + ds).Some? <==> MinI64 <= v <= MaxI64)
      && (ParseI64(sign + ds).Some? ==> ParseI64(sign + ds).value == v)
  {
    var s := sign + ds;
    if sign == [] {
      assert s == ds;
      assert !(s[0] == '+' || s[0] == '-');
    } else {
      assert s[0] == sign[0];
      assert s[1..] == ds;
    }
  }

  /** The base-10 digits of `n`, most significant first, without leading zeros. */
  function NatDigits(n: nat): (ds: Bytes)
    ensures |ds| >= 1 && AllDigits(ds)
    ensures ds[0] == '0' ==> n == 0
  {
    if n < 10 then [Digit(n)]
    else NatDigits(n / 10) + [Digit(n % 10)]
  }

  /** `format!("{}", x)` for an `i64`: base 10, with a leading '-' when negative. */
  function ShowI64(x: I64): (s: Bytes)
    ensures |s| >= 1 && NoUnderscore(s)
    ensures s[0] == '-' <==> x < 0
    ensures AllDigits(s[1..])
  {
    if x < 0 then "-" + NatDigits(-(x as int)) else NatDigits(x)
  }

  lemma {:induction false} NatDigitsValue(n: nat)
    ensures DigitsValue(NatDigits(n)) == n
  {
    if n >= 10 {
      var ds := NatDigits(n);
      assert ds[..|ds| - 1] == NatDigits(n / 10);
      NatDigitsValue(n / 10);
    }
  }

  /** Parsing the rendering of an `i64` gives the same `i64` back. */
  lemma ParseShow(x: I64)
    ensures ParseI64(ShowI64(x)) == Some(x)
  {
    var s := ShowI64(x);
    if x < 0 {
      var ds := NatDigits(-(x as int));
      NatDigitsValue(-(x as int));
      assert s == "-" + ds;
      assert s[1..] == ds;
      assert s[0] == '-';
    } else {
      NatDigitsValue(x as int);
      assert s[0] != '+' && s[0] != '-';
    }
  }

  /**
    The rendering is canonical: a successfully parsed text is the rendering of
    its value exactly when it has no '+' and no redundant leading zero.
  */
  lemma ShowParse(s: Bytes)
    requires ParseI64(s).Some?
    requires s[0] != '+'
    requires s[0] == '-' ==> |s| >= 2 && s[1] != '0'
    requires s[0] != '-' ==> s[0] != '0' || |s| == 1
    ensures ShowI64(ParseI64(s).value) == s
  {
    var digits := if s[0] == '-' then s[1..] else s;
    DigitsShow(digits);
    if s[0] == '-' {
      assert s == "-" + digits;
    }
  }

  lemma {:induction false} DigitsShow(ds: Bytes)
    requires |ds| >= 1 && AllDigits(ds)
    requires ds[0] != '0' || |ds| == 1
    ensures NatDigits(DigitsValue(ds)) == ds
    decreases |ds|
  {
    var init := ds[..|ds| - 1];
    var n := DigitsValue(ds);
    if |ds| == 1 {
      assert init == [];
    } else {
      DigitsShow(init);
      assert DigitsValue(init) >= 1 by {
        assert init[0] == ds[0];
        NonZeroLead(init);
      }
      assert n / 10 == DigitsValue(init);
      assert n % 10 == DigitValue(ds[|ds| - 1]);
      assert ds == init + [ds[|ds| - 1]];
    }
  }

  lemma {:induction false} NonZeroLead(ds: Bytes)
    requires |ds| >= 1 && AllDigits(ds) && ds[0] != '0'
    ensures DigitsValue(ds) >= 1
    decreases |ds|
  {
    if |ds| > 1 {
      NonZeroLead(ds[..|ds| - 1]);
    }
  }
}
