/** Byte strings: Go's `string` and `[]byte`, with the few library searches the codecs use. */
module Bytes {

  datatype Option<+T> = None | Some(value: T)

  type byte = b: int | 0 <= b < 256

  type bytes = seq<byte>

  /** The position of the first `b` in `s`, or |s| when there is none. */
  function IndexOf(s: bytes, b: byte): (k: nat)
    ensures k <= |s|
    ensures forall i :: 0 <= i < k ==> s[i] != b
    ensures k < |s| ==> s[k] == b
  {
    if s == [] || s[0] == b then 0 else 1 + IndexOf(s[1..], b)
  }

  /** The position of the first occurrence of the pair `a`, `b` in `s`, or |s| when there is none. */
  function IndexOfPair(s: bytes, a: byte, b: byte): (k: nat)
    ensures k == |s| || k + 2 <= |s|
    ensures k < |s| ==> s[k] == a && s[k + 1] == b
    ensures forall i :: 0 <= i < k && i + 1 < |s| ==> s[i] != a || s[i + 1] != b
  {
    if |s| < 2 then |s|
    else if s[0] == a && s[1] == b then 0
    else 1 + IndexOfPair(s[1..], a, b)
  }

  lemma Assoc(a: bytes, b: bytes, c: bytes)
    ensures a + (b + c) == (a + b) + c
  {
  }

  /** `head` in front of a result that may have failed. */
  function Prepend(head: bytes, tail: Option<bytes>): Option<bytes> {
    match tail
    case None => None
    case Some(t) => Some(head + t)
  }

  lemma PrependTwice(x: bytes, y: bytes, t: Option<bytes>)
    ensures Prepend(x, Prepend(y, t)) == Prepend(x + y, t)
  {
    if t.Some? {
      assert x + (y + t.value) == (x + y) + t.value;
    }
  }

  lemma PrependNothing(t: Option<bytes>)
    ensures Prepend([], t) == t
  {
    if t.Some? {
      assert [] + t.value == t.value;
    }
  }

  /** The concatenation of a list of pieces. */
  function Flatten(pieces: seq<bytes>): bytes {
    if pieces == [] then [] else pieces[0] + Flatten(pieces[1..])
  }
}
