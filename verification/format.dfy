/**
  What `frag_format!(descriptor, args...)` expands to and evaluates to: the
  descriptor literal is checked when the macro expands, and the generated code
  renders the arguments into "<descriptor>__<field>__<field>...".
*/
module Format {
  import opened Bytes
  import opened Wrappers
  import opened Ints
  import opened Fragments
  import opened Literals
  import opened FmtStrings
  import opened Values

  /** The compile errors `frag_format!` reports about its descriptor and arguments. */
  datatype FormatError =
    | BadStringLiteral
    | BadFormatString
    | ArgCountMismatch
      /** The argument does not have the item's type; rustc rejects the generated binding. */
    | ArgTypeMismatch(position: nat)

  /** The first argument whose type differs from its item's, or `|items|`. */
  function FirstMisfit(items: seq<FormatItem>, args: seq<Value>): (i: nat)
    requires |items| == |args|
    ensures i <= |items|
    ensures forall j :: 0 <= j < i ==> Fits(items[j], args[j])
    ensures i < |items| ==> !Fits(items[i], args[i])
    decreases |items|
  {
    if |items| == 0 then 0
    else if !Fits(items[0], args[0]) then 0
    else 1 + FirstMisfit(items[1..], args[1..])
  }

  const Placeholder: Bytes := "{}"

  /**
    The `format!` string the macro builds: the descriptor and `n` placeholders,
    with "__" interspersed.
  */
  function Template(fmt: Bytes, n: nat): Bytes {
    Join([fmt] + seq(n, _ => Placeholder))
  }

  /**
    `format!(t, args...)` for a template whose only braces are `{}` placeholders:
    each placeholder takes the next argument in order. Any other brace, or a
    count of placeholders different from the count of arguments, is a compile
    error of `format!` (None); the template built above never has either.
  */
  function Interpolate(t: Bytes, args: seq<Bytes>): Option<Bytes>
    decreases |t|
  {
    if |t| == 0 then
      if |args| == 0 then Some([]) else None
    else if t[0] == '{' then
      if |t| >= 2 && t[1] == '}' && |args| > 0 then
        match Interpolate(t[2..], args[1..])
        case None => None
        case Some(rest) => Some(args[0] + rest)
      else None
    else if t[0] == '}' then None
    else
      match Interpolate(t[1..], args)
      case None => None
      case Some(rest) => Some([t[0]] + rest)
  }

  /** No brace in `s`. */
  predicate BraceFree(s: Bytes) {
    forall i :: 0 <= i < |s| ==> s[i] != '{' && s[i] != '}'
  }

  /** `"__" + f` for each `f`, concatenated. */
  function Glued(fs: seq<Bytes>): Bytes {
    if |fs| == 0 then [] else Delim + fs[0] + Glued(fs[1..])
  }

  lemma {:induction false} JoinGlued(x: Bytes, fs: seq<Bytes>)
    ensures Join([x] + fs) == x + Glued(fs)
    decreases |fs|
  {
    if |fs| > 0 {
      assert ([x] + fs)[1..] == fs;
      assert fs == [fs[0]] + fs[1..];
      JoinGlued(fs[0], fs[1..]);
    } else {
      assert [x] + fs == [x];
    }
  }

  /** Text without braces passes through `format!` unchanged. */
  lemma {:induction false} InterpolatePlain(p: Bytes, t: Bytes, args: seq<Bytes>)
    requires BraceFree(p)
    ensures Interpolate(p + t, args) == (match Interpolate(t, args) case None => None case Some(r) => Some(p + r))
    decreases |p|
  {
    if |p| > 0 {
      assert (p + t)[1..] == p[1..] + t;
      InterpolatePlain(p[1..], t, args);
      match Interpolate(t, args)
      case None =>
      case Some(r) =>
        assert [p[0]] + (p[1..] + r) == p + r;
    } else {
      assert p + t == t;
      match Interpolate(t, args)
      case None =>
      case Some(r) =>
        assert p + r == r;
    }
  }

  /** A placeholder takes the next argument. */
  lemma InterpolateHole(t: Bytes, args: seq<Bytes>)
    requires |args| > 0
    ensures Interpolate(Placeholder + t, args) ==
      (match Interpolate(t, args[1..]) case None => None case Some(r) => Some(args[0] + r))
  {
    assert (Placeholder + t)[2..] == t;
  }

  lemma {:induction false} InterpolateHoles(fields: seq<Bytes>)
    ensures Interpolate(Holes(|fields|), fields) == Some(Glued(fields))
    decreases |fields|
  {
    if |fields| > 0 {
      InterpolateHoles(fields[1..]);
      HolesStep(|fields| - 1);
      InterpolateNextHole(Holes(|fields| - 1), fields);
      assert Delim + (fields[0] + Glued(fields[1..])) == Glued(fields);
    } else {
      assert Holes(0) == [];
    }
  }

  /** `n` placeholders, each after the delimiter. */
  function Holes(n: nat): Bytes {
    Glued(seq(n, _ => Placeholder))
  }

  lemma HolesStep(n: nat)
    ensures Holes(n + 1) == Delim + (Placeholder + Holes(n))
  {
    var holes := seq(n + 1, _ => Placeholder);
    assert holes[1..] == seq(n, _ => Placeholder);
  }

  /** The delimiter, then a placeholder: the next argument after the delimiter. */
  lemma InterpolateNextHole(t: Bytes, args: seq<Bytes>)
    requires |args| > 0
    ensures Interpolate(Delim + (Placeholder + t), args) ==
      (match Interpolate(t, args[1..]) case None => None case Some(r) => Some(Delim + (args[0] + r)))
  {
    assert BraceFree(Delim);
    InterpolateHole(t, args);
    InterpolatePlain(Delim, Placeholder + t, args);
  }

  /**
    What the generated `format!` call produces: the descriptor followed by
    "__" and each field, in argument order.
  */
  lemma TemplateOutput(fmt: Bytes, fields: seq<Bytes>)
    requires BraceFree(fmt)
    ensures Interpolate(Template(fmt, |fields|), fields) == Some(Join([fmt] + fields))
  {
    var holes := seq(|fields|, _ => Placeholder);
    JoinGlued(fmt, holes);
    JoinGlued(fmt, fields);
    InterpolateHoles(fields);
    InterpolatePlain(fmt, Glued(holes), fields);
  }

  lemma DescriptorBraceFree(fmt: Bytes)
    requires ParseFormatString(fmt).Some?
    ensures BraceFree(fmt)
  {
    AcceptedBytes(fmt);
  }

  /**
    The check of the descriptor text and the arguments, then the generated code:
    the descriptor must be accepted and free of the wildcard, with exactly one
    argument of the right type per item; the value is then the descriptor
    followed by "__" and each argument's field, in order.
  */
  function FormatDescriptor(fmt: Bytes, args: seq<Value>): (r: Result<Bytes, FormatError>)
    ensures ParseFormatString(fmt).None? ==> r == Failure(BadFormatString)
    ensures r.Success? <==>
      && ParseFormatString(fmt).Some?
      && var items := ParseFormatString(fmt).value;
      && NoWildcard(items)
      && |items| == |args|
      && (forall i :: 0 <= i < |args| ==> Fits(items[i], args[i]))
    ensures r.Success? ==> r.value == Join([fmt] + Fields(args))
    ensures r == Failure(BadFormatString) <==>
      ParseFormatString(fmt).None? || !NoWildcard(ParseFormatString(fmt).value)
    ensures r == Failure(ArgCountMismatch) <==>
      && ParseFormatString(fmt).Some?
      && NoWildcard(ParseFormatString(fmt).value)
      && |ParseFormatString(fmt).value| != |args|
    ensures ParseFormatString(fmt).Some? ==>
      var items := ParseFormatString(fmt).value;
      NoWildcard(items) && |items| == |args| && FirstMisfit(items, args) < |args| ==>
        r == Failure(ArgTypeMismatch(FirstMisfit(items, args)))
    ensures r.Failure? && r.error.ArgTypeMismatch? ==>
      var items, i := ParseFormatString(fmt).value, r.error.position;
      && |items| == |args| && i < |args|
      && !Fits(items[i], args[i])
      && forall j :: 0 <= j < i ==> Fits(items[j], args[j])
  {
    match ParseFormatString(fmt)
    case None => Failure(BadFormatString)
    case Some(items) =>
      if items[|items| - 1] == Any then Failure(BadFormatString)
      else
        assert items == items[..|items| - 1] + [items[|items| - 1]];
        if |items| != |args| then Failure(ArgCountMismatch)
        else
          var misfit := FirstMisfit(items, args);
          if misfit < |items| then Failure(ArgTypeMismatch(misfit))
          else
            EncodeOutput(fmt, items, args);
            Success(Interpolate(Template(fmt, |args|), Fields(args)).value)
  }

  lemma EncodeOutput(fmt: Bytes, items: seq<FormatItem>, args: seq<Value>)
    requires ParseFormatString(fmt) == Some(items)
    requires items[|items| - 1] != Any
    ensures NoWildcard(items)
    ensures Interpolate(Template(fmt, |args|), Fields(args)) == Some(Join([fmt] + Fields(args)))
  {
    DescriptorBraceFree(fmt);
    TemplateOutput(fmt, Fields(args));
    assert items == items[..|items| - 1] + [items[|items| - 1]];
  }

  /**
    `frag_format!(lit, args...)`: the literal's text is recovered first, then
    checked and rendered as above.
  */
  function FragFormat(lit: Bytes, args: seq<Value>): (r: Result<Bytes, FormatError>)
    ensures forall kind, fmt :: Spell(kind, fmt) == lit ==> r == FormatDescriptor(fmt, args)
    ensures (forall kind, body :: Spell(kind, body) != lit) ==> r == Failure(BadStringLiteral)
  {
    SpellingsParse(lit);
    match ParseStringLiteral(lit)
    case None => Failure(BadStringLiteral)
    case Some(fmt) => FormatDescriptor(fmt, args)
  }

  /** Every spelling that produces `lit` has the body the parser reads out of it. */
  lemma SpellingsParse(lit: Bytes)
    ensures forall kind, body :: Spell(kind, body) == lit ==> ParseStringLiteral(lit) == Some(body)
  {
    forall kind, body | Spell(kind, body) == lit
      ensures ParseStringLiteral(lit) == Some(body)
    {
      ParseSpell(kind, body);
    }
  }
}
