/**
  Splitting an encoded value on the two-byte delimiter "__", with the meaning of
  Rust's `str::split("__")`: occurrences are found left to right without overlap,
  empty pieces are kept, and there is always at least one piece.
*/
module Fragments {
  import opened Bytes

  /** The delimiter between the descriptor and each field. */
  const Delim: Bytes := "__"

  /** An occurrence of the delimiter starts at index `i` of `s`. */
  predicate DelimAt(s: Bytes, i: int) {
    0 <= i && i + 1 < |s| && s[i] == '_' && s[i + 1] == '_'
  }

  /** The delimiter occurs nowhere in `s`. */
  predicate NoDelim(s: Bytes) {
    forall i :: 0 <= i < |s| ==> !DelimAt(s, i)
  }

  predicate EndsWithUnderscore(s: Bytes) {
    |s| > 0 && s[|s| - 1] == '_'
  }

  /**
    Pieces that `Split` reproduces: none contains the delimiter, and none but the
    last ends in '_' (otherwise the leftmost match would start one byte earlier).
  */
  predicate Splittable(pieces: seq<Bytes>) {
    && |pieces| >= 1
    && (forall j :: 0 <= j < |pieces| ==> NoDelim(pieces[j]))
    && (forall j :: 0 <= j < |pieces| - 1 ==> !EndsWithUnderscore(pieces[j]))
  }

  /** The pieces glued back together with the delimiter between neighbours. */
  function Join(pieces: seq<Bytes>): Bytes {
    if |pieces| == 0 then []
    else if |pieces| == 1 then pieces[0]
    else pieces[0] + Delim + Join(pieces[1..])
  }

  /** The leftmost occurrence of the delimiter at or after `from`, or `|s|` if none. */
  function FindDelim(s: Bytes, from: nat): (i: nat)
    requires from <= |s|
    ensures from <= i <= |s|
    ensures i < |s| ==> DelimAt(s, i)
    ensures forall k :: from <= k < i ==> !DelimAt(s, k)
    decreases |s| - from
  {
    if from + 1 >= |s| then |s|
    else if DelimAt(s, from) then from
    else FindDelim(s, from + 1)
  }

  /** `s.split("__").collect()` */
  function Split(s: Bytes): (pieces: seq<Bytes>)
    ensures Splittable(pieces)
    ensures Join(pieces) == s
    decreases |s|
  {
    var i := FindDelim(s, 0);
    if i == |s| then [s]
    else
      var head := s[..i];
      var tail := Split(s[i + 2..]);
      assert forall k :: 0 <= k < |head| ==> (DelimAt(head, k) ==> DelimAt(s, k));
      assert EndsWithUnderscore(head) ==> DelimAt(s, i - 1);
      assert s == head + Delim + s[i + 2..];
      [head] + tail
  }

  /** Any text the delimiter does not occur in, as a single piece. */
  lemma SplitNoDelim(s: Bytes)
    requires NoDelim(s)
    ensures Split(s) == [s]
  {
  }

  /** Splitting undoes joining: the leftmost matches are exactly the glue. */
  lemma {:induction false} SplitJoin(pieces: seq<Bytes>)
    requires Splittable(pieces)
    ensures Split(Join(pieces)) == pieces
    decreases |pieces|
  {
    if |pieces| == 1 {
      SplitNoDelim(pieces[0]);
    } else {
      var p := pieces[0];
      var rest := pieces[1..];
      var s := Join(pieces);
      assert s == p + Delim + Join(rest);
      assert DelimAt(s, |p|);
      forall k | 0 <= k < |p|
        ensures !DelimAt(s, k)
      {
        if k < |p| - 1 {
          assert !DelimAt(p, k);
        } else {
          assert !EndsWithUnderscore(p);
        }
      }
      var i := FindDelim(s, 0);
      assert i == |p|;
      assert s[i + 2..] == Join(rest);
      assert s[..i] == p;
      assert Splittable(rest);
      SplitJoin(rest);
      assert Split(s) == [s[..i]] + Split(s[i + 2..]);
    }
  }

  /** Text without any underscore cannot contribute to a delimiter. */
  lemma NoUnderscoreSplittable(pieces: seq<Bytes>)
    requires |pieces| >= 1
    requires forall j :: 0 <= j < |pieces| ==> NoUnderscore(pieces[j])
    ensures Splittable(pieces)
  {
  }

  /** The first piece is where the text starts. */
  lemma {:induction false} JoinPrefix(pieces: seq<Bytes>)
    requires |pieces| >= 1
    ensures StartsWith(Join(pieces), pieces[0])
    decreases |pieces|
  {
    if |pieces| > 1 {
      var s := Join(pieces);
      assert s == pieces[0] + (Delim + Join(pieces[1..]));
      assert s[..|pieces[0]|] == pieces[0];
    }
  }
}
