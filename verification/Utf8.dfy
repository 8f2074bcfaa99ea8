/**
 UTF-8 as Go's unicode/utf8 reads and writes it: an undecodable byte is read, alone, as U+FFFD.
 Shifts and masks on disjoint bit fields are written as division, remainder and addition.
 */
module Utf8 {
  import opened Bytes

  /** A Unicode scalar value: a code point that is not a surrogate. */
  type scalar = r: int | 0 <= r <= 0x10FFFF && !(0xD800 <= r <= 0xDFFF)

  const RUNE_ERROR: scalar := 0xFFFD
  const REPLACEMENT: bytes := [0xEF, 0xBF, 0xBD]

  predicate IsContinuation(b: byte) { 0x80 <= b <= 0xBF }

  /** The second byte a three-byte lead accepts: no overlong forms, no surrogates. */
  predicate AcceptsSecond3(lead: byte, b: byte) {
    (if lead == 0xE0 then 0xA0 else 0x80) <= b <= (if lead == 0xED then 0x9F else 0xBF)
  }

  /** The second byte a four-byte lead accepts: no overlong forms, nothing above U+10FFFF. */
  predicate AcceptsSecond4(lead: byte, b: byte) {
    (if lead == 0xF0 then 0x90 else 0x80) <= b <= (if lead == 0xF4 then 0x8F else 0xBF)
  }

  /** The length of the well-formed encoding at the front of `s`; 0 when there is none. */
  function SeqLen(s: bytes): (n: nat)
    ensures n <= 4 && n <= |s|
  {
    if s == [] then 0
    else if s[0] < 0x80 then 1
    else if |s| >= 2 && 0xC2 <= s[0] <= 0xDF && IsContinuation(s[1]) then 2
    else if |s| >= 3 && 0xE0 <= s[0] <= 0xEF && AcceptsSecond3(s[0], s[1]) && IsContinuation(s[2]) then 3
    else if |s| >= 4 && 0xF0 <= s[0] <= 0xF4 && AcceptsSecond4(s[0], s[1]) && IsContinuation(s[2])
            && IsContinuation(s[3]) then 4
    else 0
  }

  /** The size utf8.DecodeRune reports. */
  function RuneLen(s: bytes): (n: nat)
    ensures n <= 4 && n <= |s| && (s != [] ==> n > 0)
  {
    if s != [] && SeqLen(s) == 0 then 1 else SeqLen(s)
  }

  /** The rune utf8.DecodeRune reports. */
  function Rune(s: bytes): scalar
    requires s != []
  {
    match SeqLen(s)
    case 1 => s[0]
    case 2 => (s[0] - 0xC0) * 64 + (s[1] - 0x80)
    case 3 => (s[0] - 0xE0) * 4096 + (s[1] - 0x80) * 64 + (s[2] - 0x80)
    case 4 => (s[0] - 0xF0) * 262144 + (s[1] - 0x80) * 4096 + (s[2] - 0x80) * 64 + (s[3] - 0x80)
    case _ => RUNE_ERROR
  }

  /** utf8.EncodeRune. */
  function EncodeRune(r: scalar): (s: bytes)
    ensures 1 <= |s| <= 4
  {
    if r <= 0x7F then [r]
    else if r <= 0x7FF then [0xC0 + r / 64, 0x80 + r % 64]
    else if r <= 0xFFFF then [0xE0 + r / 4096, 0x80 + r / 64 % 64, 0x80 + r % 64]
    else [0xF0 + r / 262144, 0x80 + r / 4096 % 64, 0x80 + r / 64 % 64, 0x80 + r % 64]
  }

  /** The six-bit digits of a number are recovered by division. */
  lemma SixBitDigits(hi: nat, d2: nat, d1: nat, d0: nat)
    requires d2 < 64 && d1 < 64 && d0 < 64
    ensures var r := hi * 262144 + d2 * 4096 + d1 * 64 + d0;
            r / 262144 == hi && r / 4096 % 64 == d2 && r / 64 % 64 == d1 && r % 64 == d0
            && r / 4096 == hi * 64 + d2 && r / 64 == hi * 4096 + d2 * 64 + d1
  {
    LastDigit((hi * 64 + d2) * 64 + d1, d0);
    LastDigit(hi * 64 + d2, d1);
    LastDigit(hi, d2);
    DivideTwice(hi * 262144 + d2 * 4096 + d1 * 64 + d0);
  }

  lemma LastDigit(q: nat, d: nat)
    requires d < 64
    ensures (q * 64 + d) / 64 == q && (q * 64 + d) % 64 == d
  {
  }

  lemma DivideTwice(r: nat)
    ensures r / 4096 == r / 64 / 64 && r / 262144 == r / 64 / 64 / 64
  {
  }

  /** A number is made of its six-bit digits. */
  lemma SixBitRecompose(r: nat)
    ensures r == r / 64 * 64 + r % 64
    ensures r / 64 == r / 4096 * 64 + r / 64 % 64
    ensures r / 4096 == r / 262144 * 64 + r / 4096 % 64
  {
  }

  /** Reading back what EncodeRune wrote gives the rune, whatever follows. */
  lemma EncodeThenDecode(r: scalar, rest: bytes)
    ensures SeqLen(EncodeRune(r) + rest) == |EncodeRune(r)|
    ensures Rune(EncodeRune(r) + rest) == r
  {
    EncodedShape(r);
    SeqLenPrefix(EncodeRune(r), rest);
  }

  lemma EncodedShape(r: scalar)
    ensures SeqLen(EncodeRune(r)) == |EncodeRune(r)|
    ensures Rune(EncodeRune(r)) == r
  {
    var s := EncodeRune(r);
    SixBitRecompose(r);
    if r <= 0xFFFF {
    } else {
      assert 1 <= r / 65536 <= 16;
      assert r / 4096 >= 16 && r / 4096 <= 0x10F;
      assert SeqLen(s) == 4;
    }
  }

  /** A well-formed encoding is the one EncodeRune writes: the form is unique. */
  lemma DecodeThenEncode(s: bytes)
    requires SeqLen(s) > 0
    ensures EncodeRune(Rune(s)) == s[..SeqLen(s)]
  {
    hide EncodeRune;
    match SeqLen(s)
    case 1 => OneByte(s[0]);
    case 2 => TwoBytes(s[0], s[1]);
    case 3 => ThreeBytes(s[0], s[1], s[2]);
    case _ => FourBytes(s[0], s[1], s[2], s[3]);
  }

  lemma OneByte(a: byte)
    requires a < 0x80
    ensures EncodeRune(a) == [a]
  {
  }

  lemma TwoBytes(a: byte, b: byte)
    requires 0xC2 <= a <= 0xDF && 0x80 <= b < 0xC0
    ensures EncodeRune((a - 0xC0) * 64 + (b - 0x80)) == [a, b]
  {
    SixBitDigits(0, 0, a - 0xC0, b - 0x80);
  }

  lemma ThreeBytes(a: byte, b: byte, c: byte)
    requires 0xE0 <= a <= 0xEF && AcceptsSecond3(a, b) && 0x80 <= c < 0xC0
    ensures EncodeRune((a - 0xE0) * 4096 + (b - 0x80) * 64 + (c - 0x80)) == [a, b, c]
  {
    SixBitDigits(0, a - 0xE0, b - 0x80, c - 0x80);
  }

  lemma FourBytes(a: byte, b: byte, c: byte, d: byte)
    requires 0xF0 <= a <= 0xF4 && AcceptsSecond4(a, b) && 0x80 <= c < 0xC0 && 0x80 <= d < 0xC0
    ensures EncodeRune((a - 0xF0) * 262144 + (b - 0x80) * 4096 + (c - 0x80) * 64 + (d - 0x80)) == [a, b, c, d]
  {
    SixBitDigits(a - 0xF0, b - 0x80, c - 0x80, d - 0x80);
  }

  /** A well-formed prefix depends on its own bytes only. */
  lemma SeqLenPrefix(s: bytes, rest: bytes)
    requires SeqLen(s) > 0
    ensures SeqLen(s + rest) == SeqLen(s)
    ensures Rune(s + rest) == Rune(s)
  {
    assert forall i :: 0 <= i < |s| ==> (s + rest)[i] == s[i];
  }

  /** utf8.ValidString. */
  predicate Valid(s: bytes) {
    s == [] || (SeqLen(s) > 0 && Valid(s[SeqLen(s)..]))
  }

  /** The runes a `range` loop over `s` visits. */
  function Runes(s: bytes): seq<scalar> {
    if s == [] then [] else [Rune(s)] + Runes(s[RuneLen(s)..])
  }

  function FromRunes(rs: seq<scalar>): bytes {
    if rs == [] then [] else EncodeRune(rs[0]) + FromRunes(rs[1..])
  }

  /** `s` with each undecodable byte replaced by U+FFFD. */
  function Sanitize(s: bytes): bytes {
    if s == [] then []
    else (if SeqLen(s) == 0 then REPLACEMENT else s[..SeqLen(s)]) + Sanitize(s[RuneLen(s)..])
  }

  lemma {:induction false} SanitizeIsReencoding(s: bytes)
    ensures FromRunes(Runes(s)) == Sanitize(s)
  {
    if s != [] {
      SanitizeIsReencoding(s[RuneLen(s)..]);
      assert Runes(s)[1..] == Runes(s[RuneLen(s)..]);
      if SeqLen(s) > 0 {
        DecodeThenEncode(s);
      } else {
        assert EncodeRune(RUNE_ERROR) == REPLACEMENT;
      }
    }
  }

  lemma {:induction false} SanitizeValid(s: bytes)
    requires Valid(s)
    ensures Sanitize(s) == s
  {
    if s != [] {
      SanitizeValid(s[SeqLen(s)..]);
    }
  }

  lemma {:induction false} FromRunesValid(rs: seq<scalar>)
    ensures Valid(FromRunes(rs))
    ensures Runes(FromRunes(rs)) == rs
  {
    if rs != [] {
      var rest := FromRunes(rs[1..]);
      FromRunesValid(rs[1..]);
      EncodeThenDecode(rs[0], rest);
      assert (EncodeRune(rs[0]) + rest)[|EncodeRune(rs[0])|..] == rest;
    }
  }

  lemma SanitizeIsValid(s: bytes)
    ensures Valid(Sanitize(s))
  {
    SanitizeIsReencoding(s);
    FromRunesValid(Runes(s));
  }

  lemma {:induction false} ValidAppend(s: bytes, t: bytes)
    requires Valid(s) && Valid(t)
    ensures Valid(s + t)
  {
    if s == [] {
      assert s + t == t;
    } else {
      var n := SeqLen(s);
      SeqLenPrefix(s, t);
      assert (s + t)[n..] == s[n..] + t;
      ValidAppend(s[n..], t);
    }
  }

  /** Every byte of a multi-byte encoding is at least 0x80, so it never looks like ASCII. */
  lemma MultiByteIsHigh(s: bytes)
    requires SeqLen(s) > 0 && s[0] >= 0x80
    ensures SeqLen(s) >= 2
    ensures forall i :: 0 <= i < SeqLen(s) ==> s[i] >= 0x80
  {
  }

  lemma ValidStep(s: bytes)
    requires s != []
    ensures Valid(s) <==> SeqLen(s) > 0 && Valid(s[SeqLen(s)..])
  {
  }

  /** Self-synchronisation: an ASCII byte of a valid string is a rune of its own. */
  lemma {:induction false} ValidSplitAtAscii(s: bytes, k: nat)
    requires Valid(s) && k < |s| && s[k] < 0x80
    ensures Valid(s[..k]) && Valid(s[k..]) && Valid(s[k + 1..])
  {
    hide Valid, SeqLen;
    assert s[0..] == s;
    ValidStep(s);
    if k == 0 {
      assert s[..0] == [];
      NothingValid();
      AsciiIsOne(s);
    } else {
      var n := SeqLen(s);
      AsciiNotInside(s, k);
      var t := s[n..];
      ValidSplitAtAscii(t, k - n);
      assert t[k - n..] == s[k..] && t[k - n + 1..] == s[k + 1..];
      assert s[..n] + t[..k - n] == s[..k];
      ValidBehind(s, t[..k - n]);
    }
  }

  lemma NothingValid()
    ensures Valid([])
  {
  }

  lemma AsciiIsOne(s: bytes)
    requires s != [] && s[0] < 0x80
    ensures SeqLen(s) == 1
  {
  }

  lemma AsciiNotInside(s: bytes, k: nat)
    requires SeqLen(s) > 0 && 0 < k < |s| && s[k] < 0x80
    ensures SeqLen(s) <= k
  {
    if s[0] >= 0x80 {
      MultiByteIsHigh(s);
    }
  }

  lemma ValidBehind(s: bytes, rest: bytes)
    requires SeqLen(s) > 0 && Valid(rest)
    ensures Valid(s[..SeqLen(s)] + rest)
  {
    hide Valid, SeqLen;
    var n := SeqLen(s);
    SeqLenOfFront(s);
    SeqLenPrefix(s[..n], rest);
    assert (s[..n] + rest)[n..] == rest;
    ValidStep(s[..n] + rest);
  }

  lemma SeqLenOfFront(s: bytes)
    requires SeqLen(s) > 0
    ensures SeqLen(s[..SeqLen(s)]) == SeqLen(s)
  {
  }

  lemma FirstRuneValid(s: bytes)
    requires SeqLen(s) > 0
    ensures Valid(s[..SeqLen(s)])
  {
    SeqLenOfFront(s);
    assert s[..SeqLen(s)][SeqLen(s)..] == [];
  }

  lemma SanitizeStep(s: bytes)
    ensures s == [] ==> Sanitize(s) == []
    ensures s != [] ==>
              Sanitize(s) == (if SeqLen(s) == 0 then REPLACEMENT else s[..SeqLen(s)]) + Sanitize(s[RuneLen(s)..])
  {
  }

  /** Cutting before an ASCII byte does not change how the bytes in front are read. */
  lemma {:induction false} SanitizeSplit(s: bytes, t: bytes)
    requires t == [] || t[0] < 0x80
    ensures Sanitize(s + t) == Sanitize(s) + Sanitize(t)
  {
    hide Sanitize, SeqLen, RuneLen;
    SanitizeStep(s);
    if s == [] {
      assert s + t == t;
    } else {
      SeqLenBeforeAscii(s, t);
      SanitizeStep(s + t);
      var k, n := SeqLen(s), RuneLen(s);
      var front := if k == 0 then REPLACEMENT else s[..k];
      assert (s + t)[..k] == s[..k];
      assert (s + t)[n..] == s[n..] + t;
      SanitizeSplit(s[n..], t);
      Assoc(front, Sanitize(s[n..]), Sanitize(t));
    }
  }

  lemma SeqLenBeforeAscii(s: bytes, t: bytes)
    requires s != []
    requires t == [] || t[0] < 0x80
    ensures SeqLen(s + t) == SeqLen(s) && RuneLen(s + t) == RuneLen(s)
  {
    if t == [] {
      assert s + t == s;
    } else {
      assert forall i :: 0 <= i < |s| ==> (s + t)[i] == s[i];
      assert (s + t)[|s|] == t[0];
    }
  }

  /** `k` is a position of `s` at which a decoding loop stops: no rune straddles it. */
  predicate IsBoundary(s: bytes, k: nat) {
    k == 0 || (s != [] && RuneLen(s) <= k && IsBoundary(s[RuneLen(s)..], k - RuneLen(s)))
  }
}
