/**
 Base64 as Go's encoding/base64 implements it, with padding and non-strict trailing bits, for an alphabet
 that ends in '+' and a last character of the caller's choice.
 */
module Base64 {
  import opened Bytes
  import Substrings
  import Utf8

  const PAD: byte := 0x3D
  const CR: byte := 13
  const LF: byte := 10

  /** The last character of an alphabet: '/' in the standard one, ',' in modified UTF-7. */
  type last63 = b: byte | b == 0x2F || b == 0x2C witness 0x2F

  const STANDARD: last63 := 0x2F
  const MAILBOX: last63 := 0x2C

  /** A six-bit value, or PADDING for the '=' that fills the last group. */
  type symbol = v: int | 0 <= v <= 64

  const PADDING: symbol := 64

  /** The characters the encoder writes: printable, and none of '-', '?' or a line break. */
  predicate IsOutput(c: byte) {
    0x20 < c < 0x7F && c != 0x2D && c != 0x3F && c != 0x26
  }

  function Char(v: symbol, last: last63): (c: byte)
    ensures IsOutput(c)
    ensures v == PADDING <==> c == PAD
  {
    if v < 26 then 0x41 + v
    else if v < 52 then 0x61 + (v - 26)
    else if v < 62 then 0x30 + (v - 52)
    else if v == 62 then 0x2B
    else if v == 63 then last
    else PAD
  }

  /** The symbol a character stands for; None outside the alphabet. */
  function Value(c: byte, last: last63): (v: Option<symbol>)
    ensures v.Some? ==> IsOutput(c)
    ensures v == Some(PADDING) <==> c == PAD
  {
    if 0x41 <= c <= 0x5A then Some(c - 0x41)
    else if 0x61 <= c <= 0x7A then Some(c - 0x61 + 26)
    else if 0x30 <= c <= 0x39 then Some(c - 0x30 + 52)
    else if c == 0x2B then Some(62)
    else if c == last then Some(63)
    else if c == PAD then Some(PADDING)
    else None
  }

  lemma ValueOfChar(v: symbol, last: last63)
    ensures Value(Char(v, last), last) == Some(v)
  {
  }

  function Octet0(v0: symbol, v1: symbol): byte
    requires v0 < 64 && v1 < 64
  {
    v0 * 4 + v1 / 16
  }

  function Octet1(v1: symbol, v2: symbol): byte
    requires v1 < 64 && v2 < 64
  {
    v1 % 16 * 16 + v2 / 4
  }

  function Octet2(v2: symbol, v3: symbol): byte
    requires v2 < 64 && v3 < 64
  {
    v2 % 4 * 64 + v3
  }

  /** Three bytes as four six-bit values. */
  function Quad(a: byte, b: byte, c: byte): (q: seq<symbol>)
    ensures |q| == 4 && q[0] < 64 && q[1] < 64 && q[2] < 64 && q[3] < 64
  {
    [a / 4, a % 4 * 16 + b / 16, b % 16 * 4 + c / 64, c % 64]
  }

  lemma OctetsOfQuad(a: byte, b: byte, c: byte)
    ensures var q := Quad(a, b, c);
            Octet0(q[0], q[1]) == a && Octet1(q[1], q[2]) == b && Octet2(q[2], q[3]) == c
  {
  }

  function EncodeSymbols(s: bytes): seq<symbol> {
    if s == [] then []
    else if |s| == 1 then Quad(s[0], 0, 0)[..2] + [PADDING, PADDING]
    else if |s| == 2 then Quad(s[0], s[1], 0)[..3] + [PADDING]
    else Quad(s[0], s[1], s[2]) + EncodeSymbols(s[3..])
  }

  /** Decoding in groups of four; padding only in the last group, whose spare bits are ignored. */
  function DecodeSymbols(t: seq<symbol>): Option<bytes> {
    if t == [] then Some([])
    else if |t| < 4 || t[0] == PADDING || t[1] == PADDING then None
    else if t[3] == PADDING then
      if |t| != 4 then None
      else if t[2] == PADDING then Some([Octet0(t[0], t[1])])
      else Some([Octet0(t[0], t[1]), Octet1(t[1], t[2])])
    else if t[2] == PADDING then None
    else
      match DecodeSymbols(t[4..])
      case None => None
      case Some(rest) => Some([Octet0(t[0], t[1]), Octet1(t[1], t[2]), Octet2(t[2], t[3])] + rest)
  }

  function ToChars(t: seq<symbol>, last: last63): (s: bytes)
    ensures |s| == |t|
    ensures forall i :: 0 <= i < |s| ==> s[i] == Char(t[i], last)
  {
    if t == [] then [] else [Char(t[0], last)] + ToChars(t[1..], last)
  }

  /** The symbols of a text; CR and LF are skipped wherever they stand. */
  function FromChars(s: bytes, last: last63): Option<seq<symbol>> {
    if s == [] then Some([])
    else if s[0] == CR || s[0] == LF then FromChars(s[1..], last)
    else
      match (Value(s[0], last), FromChars(s[1..], last))
      case (Some(v), Some(rest)) => Some([v] + rest)
      case _ => None
  }

  /** EncodeToString. */
  function Encode(s: bytes, last: last63): bytes {
    ToChars(EncodeSymbols(s), last)
  }

  /** DecodeString. */
  function Decode(t: bytes, last: last63): Option<bytes> {
    match FromChars(t, last)
    case None => None
    case Some(symbols) => DecodeSymbols(symbols)
  }

  lemma DecodeFullGroup(q: seq<symbol>, t: seq<symbol>)
    requires |q| == 4 && q[0] < 64 && q[1] < 64 && q[2] < 64 && q[3] < 64
    requires DecodeSymbols(t).Some?
    ensures DecodeSymbols(q + t)
         == Some([Octet0(q[0], q[1]), Octet1(q[1], q[2]), Octet2(q[2], q[3])] + DecodeSymbols(t).value)
  {
    assert (q + t)[4..] == t;
  }

  lemma DecodeShortGroup(q: seq<symbol>)
    requires |q| == 4 && q[0] < 64 && q[1] < 64 && q[2] < 64
    ensures DecodeSymbols(q[..2] + [PADDING, PADDING]) == Some([Octet0(q[0], q[1])])
    ensures DecodeSymbols(q[..3] + [PADDING]) == Some([Octet0(q[0], q[1]), Octet1(q[1], q[2])])
  {
  }

  lemma {:induction false} DecodeEncodeSymbols(s: bytes)
    ensures DecodeSymbols(EncodeSymbols(s)) == Some(s)
  {
    if s != [] {
      var b, c := if |s| > 1 then s[1] else 0, if |s| > 2 then s[2] else 0;
      var q := Quad(s[0], b, c);
      OctetsOfQuad(s[0], b, c);
      if |s| <= 2 {
        DecodeShortGroup(q);
        assert s == if |s| == 1 then [s[0]] else [s[0], b];
      } else {
        DecodeEncodeSymbols(s[3..]);
        DecodeFullGroup(q, EncodeSymbols(s[3..]));
        assert [s[0], b, c] + s[3..] == s;
      }
    }
  }

  lemma {:induction false} FromCharsToChars(t: seq<symbol>, last: last63)
    ensures FromChars(ToChars(t, last), last) == Some(t)
  {
    if t != [] {
      ValueOfChar(t[0], last);
      FromCharsToChars(t[1..], last);
      assert ToChars(t, last)[1..] == ToChars(t[1..], last);
      assert [t[0]] + t[1..] == t;
    }
  }

  /** What the encoder writes, the decoder reads back. */
  lemma DecodeEncode(s: bytes, last: last63)
    ensures Decode(Encode(s, last), last) == Some(s)
  {
    FromCharsToChars(EncodeSymbols(s), last);
    DecodeEncodeSymbols(s);
  }

  /** The number of '=' characters the encoder ends with. */
  function PadCount(n: nat): (p: nat)
    ensures p <= 2
  {
    2 - (n + 2) % 3
  }

  /** EncodedLen, and the place of the padding: exactly the last PadCount characters are '='. */
  lemma {:induction false} EncodeShape(s: bytes, last: last63)
    ensures var t := Encode(s, last);
            |t| == (|s| + 2) / 3 * 4
            && (forall i :: 0 <= i < |t| ==> IsOutput(t[i]))
            && (forall i :: 0 <= i < |t| ==> (t[i] == PAD <==> i >= |t| - PadCount(|s|)))
  {
    SymbolsLengthOf(s);
    SymbolsPadding(s);
  }

  lemma {:induction false} SymbolsLengthOf(s: bytes)
    ensures |EncodeSymbols(s)| == (|s| + 2) / 3 * 4
  {
    if |s| >= 3 {
      SymbolsLengthOf(s[3..]);
      assert (|s| + 2) / 3 == (|s[3..]| + 2) / 3 + 1;
    }
  }

  predicate PaddedFrom(t: seq<symbol>, n: int) {
    forall i :: 0 <= i < |t| ==> (t[i] == PADDING <==> i >= n)
  }

  lemma {:induction false} SymbolsPadding(s: bytes)
    ensures PaddedFrom(EncodeSymbols(s), |EncodeSymbols(s)| - PadCount(|s|))
  {
    if |s| >= 3 {
      SymbolsPadding(s[3..]);
      assert PadCount(|s|) == PadCount(|s[3..]|);
    } else if |s| == 2 {
      assert PadCount(2) == 1;
    } else if |s| == 1 {
      assert PadCount(1) == 2;
    }
  }

  /** Decoding yields at most three bytes for four characters. */
  lemma {:induction false} DecodedLength(t: bytes, last: last63)
    requires Decode(t, last).Some?
    ensures 4 * |Decode(t, last).value| <= 3 * |t|
  {
    FromCharsLength(t, last);
    SymbolsLength(FromChars(t, last).value);
  }

  lemma {:induction false} FromCharsLength(t: bytes, last: last63)
    requires FromChars(t, last).Some?
    ensures |FromChars(t, last).value| <= |t|
  {
    if t != [] {
      FromCharsLength(t[1..], last);
    }
  }

  lemma {:induction false} SymbolsLength(t: seq<symbol>)
    requires DecodeSymbols(t).Some?
    ensures 4 * |DecodeSymbols(t).value| <= 3 * |t|
  {
    if |t| > 4 {
      SymbolsLength(t[4..]);
    }
  }

  // ---- In the terms of sections 4 and 5.1.3 of RFC 4648 and RFC 3501

  /** The alphabet: section 4 of RFC 4648 has "/" for 63, section 5.1.3 of RFC 3501 has ",". */
  lemma UpperLetters(v: symbol, last: last63)
    ensures v < 13 ==> Char(v, last) == Substrings.Ascii("ABCDEFGHIJKLM")[v]
    ensures 13 <= v < 26 ==> Char(v, last) == Substrings.Ascii("NOPQRSTUVWXYZ")[v - 13]
  {
  }

  lemma LowerLetters(v: symbol, last: last63)
    ensures 26 <= v < 39 ==> Char(v, last) == Substrings.Ascii("abcdefghijklm")[v - 26]
    ensures 39 <= v < 52 ==> Char(v, last) == Substrings.Ascii("nopqrstuvwxyz")[v - 39]
  {
  }

  lemma DigitsAndSigns(v: symbol, last: last63)
    ensures 52 <= v < 63 ==> Char(v, last) == Substrings.Ascii("0123456789+")[v - 52]
    ensures Char(63, last) == last && [Char(64, last)] == Substrings.Ascii("=")
    ensures [STANDARD] == Substrings.Ascii("/") && [MAILBOX] == Substrings.Ascii(",")
  {
  }

  /** Three bytes are one number of 24 bits, written as four digits of six bits. */
  lemma GroupIs(a: byte, b: byte, c: byte, rest: bytes, last: last63)
    ensures var n := a * 65536 + b * 256 + c;
            Encode([a, b, c] + rest, last)
            == [Char(n / 262144, last), Char(n / 4096 % 64, last), Char(n / 64 % 64, last), Char(n % 64, last)]
               + Encode(rest, last)
  {
    hide Char, ToChars, EncodeSymbols;
    var s := [a, b, c] + rest;
    var q := Quad(a, b, c);
    var n := a * 65536 + b * 256 + c;
    QuadDigits(a, b, c);
    assert s[3..] == rest;
    EncodeSymbolsStep(s);
    ToCharsFour(q, EncodeSymbols(rest), last);
  }

  lemma QuadDigits(a: byte, b: byte, c: byte)
    ensures var n := a * 65536 + b * 256 + c;
            Quad(a, b, c) == [n / 262144, n / 4096 % 64, n / 64 % 64, n % 64]
  {
    hide Quad;
    QuadIs(a, b, c);
    var p, q, r, s, t, u := a / 4, a % 4, b / 16, b % 16, c / 64, c % 64;
    Parts(a, b, c);
    SixDigits(p, q, r, s, t, u);
    Utf8.SixBitDigits(p, 16 * q + r, 4 * s + t, u);
  }

  lemma Parts(a: byte, b: byte, c: byte)
    ensures 4 * (a / 4) + a % 4 == a && 16 * (b / 16) + b % 16 == b && 64 * (c / 64) + c % 64 == c
  {
  }

  lemma SixDigits(p: int, q: int, r: int, s: int, t: int, u: int)
    ensures (4 * p + q) * 65536 + (16 * r + s) * 256 + (64 * t + u)
            == p * 262144 + (16 * q + r) * 4096 + (4 * s + t) * 64 + u
  {
  }

  lemma EncodeSymbolsStep(s: bytes)
    ensures |s| >= 3 ==> EncodeSymbols(s) == Quad(s[0], s[1], s[2]) + EncodeSymbols(s[3..])
  {
  }

  lemma ToCharsFour(q: seq<symbol>, t: seq<symbol>, last: last63)
    requires |q| == 4
    ensures ToChars(q + t, last)
            == [Char(q[0], last), Char(q[1], last), Char(q[2], last), Char(q[3], last)] + ToChars(t, last)
  {
    var all := ToChars(q + t, last);
    var split := [Char(q[0], last), Char(q[1], last), Char(q[2], last), Char(q[3], last)] + ToChars(t, last);
    assert forall i :: 0 <= i < |all| ==> all[i] == split[i];
  }

  /** One byte, or two, at the end: zero bits are added, and "=" up to four characters. */
  lemma EndIs(a: byte, b: byte, last: last63)
    ensures Encode([a], last) == [Char(a / 4, last), Char(a % 4 * 16, last)] + Substrings.Ascii("==")
    ensures Encode([a, b], last)
            == [Char(a / 4, last), Char(a % 4 * 16 + b / 16, last), Char(b % 16 * 4, last)] + Substrings.Ascii("=")
    ensures Encode([], last) == []
  {
    hide Quad;
    assert Quad(a, 0, 0)[..2] == [a / 4, a % 4 * 16] by { QuadIs(a, 0, 0); }
    assert Quad(a, b, 0)[..3] == [a / 4, a % 4 * 16 + b / 16, b % 16 * 4] by { QuadIs(a, b, 0); }
  }

  lemma QuadIs(a: byte, b: byte, c: byte)
    ensures Quad(a, b, c) == [a / 4, a % 4 * 16 + b / 16, b % 16 * 4 + c / 64, c % 64]
  {
  }
}
