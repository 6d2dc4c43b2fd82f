/**
  Recovering the text of a string literal from its token spelling, as the macros
  do with their first argument: an optional `b` prefix, or an `r` prefix with any
  number of balanced '#', around a '"'-delimited body. Escapes are not processed.
*/
module Literals {
  import opened Bytes
  import opened Wrappers

  /** `k` copies of '#'. */
  function Hashes(k: nat): (h: Bytes)
    ensures |h| == k
  {
    if k == 0 then [] else "#" + Hashes(k - 1)
  }

  lemma {:induction false} HashesSnoc(k: nat)
    ensures Hashes(k + 1) == Hashes(k) + "#"
  {
    if k > 0 {
      HashesSnoc(k - 1);
    }
  }

  /** A text is its first byte, its middle and its last byte. */
  lemma Ends(s: Bytes)
    requires |s| >= 2
    ensures s == [s[0]] + s[1..|s| - 1] + [s[|s| - 1]]
  {
    var t := [s[0]] + s[1..|s| - 1] + [s[|s| - 1]];
    assert |t| == |s|;
    assert forall i | 0 <= i < |s| :: t[i] == s[i];
  }

  /** Both ends of `s` are '#' and there is something between them to keep peeling. */
  predicate Peelable(s: Bytes) {
    |s| >= 2 && s[0] == '#' && s[|s| - 1] == '#'
  }

  /** How many times the loop below peels. */
  function HashDepth(s: Bytes): nat
    decreases |s|
  {
    if Peelable(s) then 1 + HashDepth(s[1..|s| - 1]) else 0
  }

  /**
    The `while` loop that peels one '#' off both ends while it can: the result is
    what is left between `HashDepth(s)` hashes on each side, and it cannot be
    peeled any further.
  */
  function StripHashes(s: Bytes): (r: Bytes)
    ensures s == Hashes(HashDepth(s)) + r + Hashes(HashDepth(s))
    ensures !Peelable(r)
    decreases |s|
  {
    if Peelable(s) then
      var inner := s[1..|s| - 1];
      var r := StripHashes(inner);
      var k := HashDepth(inner);
      HashesSnoc(k);
      Ends(s);
      assert s == "#" + (Hashes(k) + r + Hashes(k)) + "#";
      r
    else s
  }

  /** How a string literal token is spelled around its body. */
  datatype LitKind = Plain | ByteStr | Raw(hashes: nat)

  /** The bytes before the opening quote. */
  function Opening(kind: LitKind): Bytes {
    match kind
    case Plain => []
    case ByteStr => "b"
    case Raw(k) => "r" + Hashes(k)
  }

  /** The bytes after the closing quote. */
  function Closing(kind: LitKind): Bytes {
    match kind
    case Raw(k) => Hashes(k)
    case _ => []
  }

  /** `body` between two '"'. */
  function Quoted(body: Bytes): Bytes {
    "\"" + body + "\""
  }

  /** The token spelling of a literal of kind `kind` whose body is `body`. */
  function Spell(kind: LitKind, body: Bytes): Bytes {
    Opening(kind) + Quoted(body) + Closing(kind)
  }

  /** The kind the parser reads off a token from its first byte and its hashes. */
  function KindOf(lit: Bytes): LitKind {
    if |lit| > 0 && lit[0] == 'b' then ByteStr
    else if |lit| > 0 && lit[0] == 'r' then Raw(HashDepth(lit[1..]))
    else Plain
  }

  /** What is left of the token once its prefix, and a raw literal's hashes, are gone. */
  function Unprefixed(lit: Bytes): Bytes {
    if |lit| > 0 && lit[0] == 'b' then lit[1..]
    else if |lit| > 0 && lit[0] == 'r' then StripHashes(lit[1..])
    else lit
  }

  lemma Reassemble(lit: Bytes)
    ensures lit == Opening(KindOf(lit)) + Unprefixed(lit) + Closing(KindOf(lit))
  {
    if |lit| > 0 && lit[0] == 'b' {
      assert lit == "b" + lit[1..];
    } else if |lit| > 0 && lit[0] == 'r' {
      assert lit == "r" + lit[1..];
    }
  }

  /** `parse_string_literal` */
  function ParseStringLiteral(lit: Bytes): (r: Option<Bytes>)
    ensures r.Some? ==> Spell(KindOf(lit), r.value) == lit
  {
    var s := Unprefixed(lit);
    if |s| >= 2 && s[0] == '"' && s[|s| - 1] == '"' then
      var body := s[1..|s| - 1];
      Ends(s);
      Reassemble(lit);
      Some(body)
    else None
  }

  /** Every spelling of a literal parses back to its body. */
  lemma ParseSpell(kind: LitKind, body: Bytes)
    ensures ParseStringLiteral(Spell(kind, body)) == Some(body)
  {
    var quoted := Quoted(body);
    UnprefixedSpell(kind, body);
    assert quoted[1..|quoted| - 1] == body;
  }

  lemma UnprefixedSpell(kind: LitKind, body: Bytes)
    ensures Unprefixed(Spell(kind, body)) == Quoted(body)
  {
    match kind
    case Plain => UnprefixedPlain(body);
    case ByteStr => UnprefixedByteStr(body);
    case Raw(k) => UnprefixedRaw(k, body);
  }

  lemma UnprefixedPlain(body: Bytes)
    ensures Unprefixed(Spell(Plain, body)) == Quoted(body)
  {
    assert Spell(Plain, body) == Quoted(body);
  }

  lemma UnprefixedByteStr(body: Bytes)
    ensures Unprefixed(Spell(ByteStr, body)) == Quoted(body)
  {
    var lit := Spell(ByteStr, body);
    assert lit[1..] == Quoted(body);
  }

  lemma UnprefixedRaw(k: nat, body: Bytes)
    ensures Unprefixed(Spell(Raw(k), body)) == Quoted(body)
  {
    var quoted := Quoted(body);
    var tail := Hashes(k) + quoted + Hashes(k);
    RawSpelling(k, body);
    assert ("r" + tail)[1..] == tail;
    StripBalanced(k, quoted);
  }

  lemma RawSpelling(k: nat, body: Bytes)
    ensures Spell(Raw(k), body) == "r" + (Hashes(k) + Quoted(body) + Hashes(k))
  {
  }

  /** Peeling stops exactly at the quote, whatever the body holds. */
  lemma {:induction false} StripBalanced(k: nat, quoted: Bytes)
    requires |quoted| >= 1 && quoted[0] == '"'
    ensures StripHashes(Hashes(k) + quoted + Hashes(k)) == quoted
  {
    var s := Hashes(k) + quoted + Hashes(k);
    if k > 0 {
      var inner := Hashes(k - 1) + quoted + Hashes(k - 1);
      HashesSnoc(k - 1);
      assert s == "#" + inner + "#";
      PeelOnce(s, inner);
      StripBalanced(k - 1, quoted);
    } else {
      assert s == quoted;
    }
  }

  lemma PeelOnce(s: Bytes, inner: Bytes)
    requires s == "#" + inner + "#"
    ensures StripHashes(s) == StripHashes(inner)
  {
    assert Peelable(s);
    assert s[1..|s| - 1] == inner;
  }

  /**
    A literal parses to `body` exactly when it is a spelling of `body`: plain,
    byte string, or raw with equally many '#' on both sides. Anything else,
    unbalanced hashes and texts shorter than two quotes included, gives None.
  */
  lemma ParseIff(lit: Bytes, body: Bytes)
    ensures ParseStringLiteral(lit) == Some(body) <==> exists kind :: Spell(kind, body) == lit
  {
    if ParseStringLiteral(lit) == Some(body) {
      assert Spell(KindOf(lit), body) == lit;
    }
    forall kind | Spell(kind, body) == lit
      ensures ParseStringLiteral(lit) == Some(body)
    {
      ParseSpell(kind, body);
    }
  }

  /**
    The parsed body, with its two quotes, sits contiguously inside the literal,
    so it is strictly shorter than the literal.
  */
  lemma BodyInside(lit: Bytes)
    requires ParseStringLiteral(lit).Some?
    ensures var body := ParseStringLiteral(lit).value;
      var i := |Opening(KindOf(lit))|;
      && |body| < |lit|
      && i + |body| + 2 <= |lit|
      && lit[i..i + |body| + 2] == Quoted(body)
  {
    var body := ParseStringLiteral(lit).value;
    var kind := KindOf(lit);
    assert lit == Opening(kind) + Quoted(body) + Closing(kind);
  }
}
