/** UTF-16, big-endian, as modified UTF-7 carries it. */
module Utf16 {
  import opened Bytes
  import opened Utf8

  /** The printable ASCII range, which modified UTF-7 writes as itself. */
  const MIN := 0x20
  const MAX := 0x7E

  predicate IsPrintable(c: int) { MIN <= c <= MAX }

  /** The UTF-16 form of one rune: one unit, or a surrogate pair above the basic plane. */
  function FromRune(r: scalar): (u: bytes)
    ensures |u| == 2 || |u| == 4
  {
    if r >= 0x10000 then
      var hi, lo := 0xD800 + (r - 0x10000) / 1024, 0xDC00 + (r - 0x10000) % 1024;
      [hi / 256, hi % 256, lo / 256, lo % 256]
    else [r / 256, r % 256]
  }

  function FromRuneSeq(rs: seq<scalar>): (u: bytes)
    ensures |u| % 2 == 0
    ensures rs != [] ==> u != []
  {
    if rs == [] then [] else FromRune(rs[0]) + FromRuneSeq(rs[1..])
  }

  function Unit(u: bytes, i: nat): (w: int)
    requires i + 1 < |u|
    ensures 0 <= w < 0x10000
  {
    u[i] as int * 256 + u[i + 1]
  }

  predicate IsSurrogate(w: int) { 0xD800 <= w <= 0xDFFF }

  /** The rune at the front of `u` and the bytes it takes; None for a broken surrogate or printable ASCII. */
  function Front(u: bytes): (r: Option<(scalar, nat)>)
    requires |u| >= 2
    ensures r.Some? ==> (r.value.1 == 2 || r.value.1 == 4) && r.value.1 <= |u|
    ensures r.Some? ==> 2 * |EncodeRune(r.value.0)| <= 3 * r.value.1
  {
    var w := Unit(u, 0);
    if IsSurrogate(w) then
      if |u| < 4 then None
      else
        var w2 := Unit(u, 2);
        if w < 0xDC00 && 0xDC00 <= w2 <= 0xDFFF then Some(((w - 0xD800) * 1024 + (w2 - 0xDC00) + 0x10000, 4))
        else None
    else if IsPrintable(w) then None
    else Some((w, 2))
  }

  /** The UTF-8 text of a UTF-16 string, or None when it may not stand in a base64 segment. */
  function ToUtf8(u: bytes): Option<bytes>
    decreases |u|
  {
    if u == [] then Some([])
    else if |u| == 1 then None
    else
      match Front(u)
      case None => None
      case Some((r, n)) => Prepend(EncodeRune(r), ToUtf8(u[n..]))
  }

  lemma FrontOfFromRune(r: scalar, rest: bytes)
    requires !IsPrintable(r)
    ensures Front(FromRune(r) + rest) == Some((r, |FromRune(r)|))
  {
    var u := FromRune(r) + rest;
    if r >= 0x10000 {
      var v := r - 0x10000;
      var hi, lo := 0xD800 + v / 1024, 0xDC00 + v % 1024;
      assert v / 1024 < 1024;
      assert u[0] == hi / 256 && u[1] == hi % 256 && u[2] == lo / 256 && u[3] == lo % 256;
      assert Unit(u, 0) == hi && Unit(u, 2) == lo;
    } else {
      assert u[0] == r / 256 && u[1] == r % 256;
      assert Unit(u, 0) == r;
    }
  }

  /** Text without printable ASCII survives the trip through UTF-16. */
  lemma {:induction false} RoundTrip(rs: seq<scalar>)
    requires forall i :: 0 <= i < |rs| ==> !IsPrintable(rs[i])
    ensures ToUtf8(FromRuneSeq(rs)) == Some(FromRunes(rs))
  {
    if rs != [] {
      RoundTrip(rs[1..]);
      var rest := FromRuneSeq(rs[1..]);
      FrontOfFromRune(rs[0], rest);
      assert (FromRune(rs[0]) + rest)[|FromRune(rs[0])|..] == rest;
    }
  }

  /** What comes out is well-formed UTF-8, at most half as long again as the UTF-16. */
  lemma {:induction false} ToUtf8Valid(u: bytes)
    requires ToUtf8(u).Some?
    ensures Valid(ToUtf8(u).value)
    ensures 2 * |ToUtf8(u).value| <= 3 * |u|
    decreases |u|
  {
    if u != [] {
      var (r, n) := Front(u).value;
      ToUtf8Valid(u[n..]);
      EncodeThenDecode(r, []);
      assert EncodeRune(r) + [] == EncodeRune(r);
      ValidAppend(EncodeRune(r), ToUtf8(u[n..]).value);
    }
  }

  /** A rune of the basic plane is one unit, any other the two units that section 2.1 of RFC 2781 gives it. */
  lemma UnitsAre(r: scalar)
    ensures var u := FromRune(r);
            if r < 0x10000 then |u| == 2 && 256 * (u[0] as int) + u[1] as int == r
            else |u| == 4 && var hi, lo := 256 * (u[0] as int) + u[1] as int, 256 * (u[2] as int) + u[3] as int;
                 0xD800 <= hi < 0xDC00 && 0xDC00 <= lo < 0xE000
                 && r == 0x10000 + (hi - 0xD800) * 0x400 + (lo - 0xDC00)
  {
    if r >= 0x10000 {
      assert (r - 0x10000) / 1024 < 1024;
    }
  }
}
