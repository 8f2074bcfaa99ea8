/** What modified UTF-7 promises of `Utf7.Encoded` and `Utf7.Decoded`. */
module Utf7Proofs {
  import opened Bytes
  import opened Utf8
  import opened Utf16
  import opened Utf7
  import Base64
  import Substrings

  // ---- One segment

  predicate NonePrintable(s: bytes) {
    forall i :: 0 <= i < |s| ==> !IsPrintable(s[i])
  }

  lemma RuneOfHighByte(s: bytes)
    requires s != [] && !IsPrintable(s[0])
    ensures !IsPrintable(Rune(s))
  {
  }

  lemma {:induction false} RunesOfRun(run: bytes)
    requires NonePrintable(run)
    ensures forall i :: 0 <= i < |Runes(run)| ==> !IsPrintable(Runes(run)[i])
  {
    if run != [] {
      RuneOfHighByte(run);
      RunesOfRun(run[RuneLen(run)..]);
    }
  }

  /** Stripping the padding loses nothing: the decoder restores it from the length. */
  lemma PaddingRestored(u: bytes)
    requires u != []
    ensures var t := Base64.Encode(u, Base64.MAILBOX); var n := |t| - Base64.PadCount(|u|);
            2 <= n <= |t| && Padded(t[..n]) == t
            && forall i :: 0 <= i < n ==> Base64.IsOutput(t[i]) && t[i] != Base64.PAD
  {
    hide Base64.Encode;
    var t := Base64.Encode(u, Base64.MAILBOX);
    Base64.EncodeShape(u, Base64.MAILBOX);
    var n := |t| - Base64.PadCount(|u|);
    assert |t| >= 4 && |t| % 4 == 0;
    if Base64.PadCount(|u|) == 0 {
      assert t[..n] == t;
    } else if Base64.PadCount(|u|) == 1 {
      assert t == t[..n] + [Base64.PAD];
    } else {
      assert t == t[..n] + [Base64.PAD, Base64.PAD];
    }
  }

  lemma RunNotEmpty(run: bytes)
    requires run != []
    ensures FromRuneSeq(Runes(run)) != []
  {
    assert Runes(run) != [];
  }

  lemma SegmentRoundTrip(run: bytes)
    requires run != [] && NonePrintable(run)
    ensures SegmentText(run) != []
    ensures forall i :: 0 <= i < |SegmentText(run)| ==>
              Base64.IsOutput(SegmentText(run)[i]) && SegmentText(run)[i] != Base64.PAD
    ensures DecodedSegment(SegmentText(run)) == Some(Sanitize(run))
  {
    hide Base64.Encode, Base64.Decode, Padded, Runes, FromRuneSeq, ToUtf8, Sanitize, FromRunes;
    var u := FromRuneSeq(Runes(run));
    RunNotEmpty(run);
    PaddingRestored(u);
    Base64.DecodeEncode(u, Base64.MAILBOX);
    RunesOfRun(run);
    RoundTrip(Runes(run));
    SanitizeIsReencoding(run);
  }

  // ---- Whole names

  lemma {:induction false} SanitizeChar(s: bytes)
    requires s != [] && s[0] < 0x80
    ensures Sanitize(s) == [s[0]] + Sanitize(s[1..])
  {
  }

  lemma {:induction false} ScanEncoded(s: bytes, ascii: bool)
    requires ascii || s == [] || IsPrintable(s[0])
    ensures Scan(Encoded(s), ascii) == Some(Sanitize(s))
    decreases |s|
  {
    hide Scan, Encoded, Sanitize, DecodedSegment, SegmentText, RunLen;
    EncodedStep(s);
    var t := Encoded(s);
    if s == [] {
      ScanStep(t, ascii);
      SanitizeValid(s);
    } else if IsPrintable(s[0]) {
      var rest := Encoded(s[1..]);
      ScanEncoded(s[1..], true);
      SanitizeChar(s);
      if s[0] == AMP {
        assert t[2..] == rest;
        ScanShift(t, ascii, 0);
      } else {
        assert t[1..] == rest;
        ScanStep(t, ascii);
      }
    } else {
      var n := RunLen(s);
      var run, tail := s[..n], s[n..];
      assert n > 0;
      SegmentRoundTrip(run);
      var seg, rest := SegmentText(run), Encoded(tail);
      assert t == [AMP] + seg + [DASH] + rest;
      var k := |seg|;
      forall i | 1 <= i <= k
        ensures t[i] != DASH && t[i] != Base64.CR && t[i] != Base64.LF
      {
        assert t[i] == seg[i - 1];
      }
      assert t[1..k + 1] == seg && t[k + 2..] == rest;
      ScanShift(t, ascii, k);
      ScanEncoded(tail, false);
      SanitizeSplit(run, tail);
      assert run + tail == s;
      SanitizeNonEmpty(run);
    }
  }

  lemma SanitizeNonEmpty(s: bytes)
    requires s != []
    ensures Sanitize(s) != []
  {
  }

  /** The encoder writes printable 7-bit text only. */
  lemma {:induction false} EncodedIsPrintable(s: bytes)
    ensures forall i :: 0 <= i < |Encoded(s)| ==> 0x20 <= Encoded(s)[i] <= 0x7E
    decreases |s|
  {
    hide Encoded, SegmentText, RunLen;
    EncodedStep(s);
    if s != [] && IsPrintable(s[0]) {
      EncodedIsPrintable(s[1..]);
    } else if s != [] {
      SegmentRoundTrip(s[..RunLen(s)]);
      EncodedIsPrintable(s[RunLen(s)..]);
    }
  }

  lemma {:induction false} AsciiIsValid(s: bytes)
    requires forall i :: 0 <= i < |s| ==> s[i] < 0x80
    ensures Valid(s)
  {
    if s != [] {
      AsciiIsValid(s[1..]);
    }
  }

  /** Decoding what was encoded gives the name back, each undecodable byte read as U+FFFD. */
  lemma RoundTripAnyBytes(s: bytes)
    ensures Decoded(Encoded(s)) == Some(Sanitize(s))
  {
    EncodedIsPrintable(s);
    AsciiIsValid(Encoded(s));
    ScanEncoded(s, true);
  }

  /** Every valid name survives the round trip unchanged. */
  lemma RoundTripValid(s: bytes)
    requires Valid(s)
    ensures Decoded(Encoded(s)) == Some(s)
  {
    RoundTripAnyBytes(s);
    SanitizeValid(s);
  }

  /** The round trip is the identity on valid names and on nothing else. */
  lemma RoundTripIff(s: bytes)
    ensures Decoded(Encoded(s)) == Some(s) <==> Valid(s)
  {
    RoundTripAnyBytes(s);
    SanitizeIsValid(s);
    if Valid(s) {
      SanitizeValid(s);
    }
  }

  /** Two different valid names never share a mailbox encoding. */
  lemma EncodedInjective(a: bytes, b: bytes)
    requires Valid(a) && Valid(b) && Encoded(a) == Encoded(b)
    ensures a == b
  {
    RoundTripValid(a);
    RoundTripValid(b);
  }

  // ---- What the decoder accepts, although the encoder would not write it

  lemma DecodedSegmentValid(b64: bytes)
    requires b64 != [] && DecodedSegment(b64).Some?
    ensures Valid(DecodedSegment(b64).value)
  {
    ToUtf8Valid(Base64.Decode(Padded(b64), Base64.MAILBOX).value);
  }

  /** A multi-byte rune of the input is copied byte by byte. */
  lemma {:induction false} ScanCopies(t: bytes, n: nat, ascii: bool)
    requires 0 < n <= |t| && forall i :: 0 <= i < n ==> t[i] >= 0x80
    ensures Scan(t, ascii) == Prepend(t[..n], Scan(t[n..], true))
    decreases n
  {
    hide Scan;
    ScanStep(t, ascii);
    if n == 1 {
      assert t[..1] == [t[0]];
    } else {
      var u := t[1..];
      ScanCopies(u, n - 1, true);
      PrependTwice([t[0]], u[..n - 1], Scan(u[n - 1..], true));
      assert [t[0]] + u[..n - 1] == t[..n] && u[n - 1..] == t[n..];
    }
  }

  lemma {:induction false} ScanAcceptsValid(t: bytes, ascii: bool)
    requires Valid(t) && Scan(t, ascii).Some?
    ensures Valid(Scan(t, ascii).value)
    decreases |t|
  {
    if t == [] {
    } else if t[0] >= 0x80 {
      var n := SeqLen(t);
      MultiByteIsHigh(t);
      ScanCopies(t, n, ascii);
      ScanAcceptsValid(t[n..], true);
      FirstRuneValid(t);
      ValidAppend(t[..n], Scan(t[n..], true).value);
    } else {
      ScanAcceptsAscii(t, ascii);
    }
  }

  lemma {:induction false} ScanAcceptsAscii(t: bytes, ascii: bool)
    requires Valid(t) && t != [] && t[0] < 0x80 && Scan(t, ascii).Some?
    ensures Valid(Scan(t, ascii).value)
    decreases |t|, 0
  {
    hide Scan, DecodedSegment, Valid;
    ScanStep(t, ascii);
    AsciiIsValid([t[0]]);
    if t[0] != AMP {
      ValidSplitAtAscii(t, 0);
      ScanAcceptsValid(t[1..], true);
      ValidAppend([t[0]], Scan(t[1..], true).value);
    } else {
      var k := IndexOf(t[1..], DASH);
      assert forall i :: 1 <= i <= k ==> t[i] == t[1..][i - 1];
      SegmentHasNoNewline(t, ascii, k);
      ScanShift(t, ascii, k);
      ValidSplitAtAscii(t, k + 1);
      ScanAcceptsValid(t[k + 2..], k == 0);
      if k == 0 {
        ValidAppend([AMP], Scan(t[2..], true).value);
      } else {
        DecodedSegmentValid(t[1..k + 1]);
        ValidAppend(DecodedSegment(t[1..k + 1]).value, Scan(t[k + 2..], false).value);
      }
    }
  }

  lemma SegmentHasNoNewline(t: bytes, ascii: bool, k: nat)
    requires t != [] && t[0] == AMP && k == IndexOf(t[1..], DASH) && Scan(t, ascii).Some?
    ensures k + 1 < |t| && t[k + 1] == DASH
    ensures forall i :: 1 <= i <= k ==> t[i] != DASH && t[i] != Base64.CR && t[i] != Base64.LF
  {
    var u := t[1..];
    assert k < |u|;
    assert t[k + 1] == u[k];
    forall i | 1 <= i <= k
      ensures t[i] != DASH && t[i] != Base64.CR && t[i] != Base64.LF
    {
      assert u[i - 1] == t[i];
      assert u[..k][i - 1] == t[i];
    }
  }

  /**
   Whatever spelling the decoder accepts (spare base64 bits, raw UTF-8), the name is valid UTF-8 and its own
   encoding is printable and decodes to the same name: encoding after decoding normalises, and once is enough.
   */
  lemma DecodeNormalises(t: bytes)
    requires Decoded(t).Some?
    ensures var s := Decoded(t).value;
            Valid(s) && Decoded(Encoded(s)) == Some(s)
            && forall i :: 0 <= i < |Encoded(s)| ==> 0x20 <= Encoded(s)[i] <= 0x7E
  {
    hide Scan, Encoded;
    ScanAcceptsValid(t, true);
    RoundTripValid(Decoded(t).value);
    EncodedIsPrintable(Decoded(t).value);
  }

  // ---- In the characters of section 5.1.3 of RFC 3501

  /** Printable ASCII other than "&". */
  predicate IsPlain(p: bytes) {
    forall i :: 0 <= i < |p| ==> 0x20 <= p[i] <= 0x7E && p[i] != 0x26
  }

  lemma {:induction false} PlainEncoded(p: bytes, rest: bytes)
    requires IsPlain(p)
    ensures Encoded(p + rest) == p + Encoded(rest)
  {
    hide Encoded;
    if p == [] {
      assert p + rest == rest;
    } else {
      EncodedStep(p + rest);
      assert (p + rest)[1..] == p[1..] + rest;
      PlainEncoded(p[1..], rest);
    }
  }

  lemma RunLenIs(run: bytes, rest: bytes)
    requires forall i :: 0 <= i < |run| ==> run[i] < 0x20 || run[i] > 0x7E
    requires rest == [] || 0x20 <= rest[0] <= 0x7E
    ensures RunLen(run + rest) == |run|
  {
    hide RunLen;
    var s := run + rest;
    assert forall i :: 0 <= i < |run| ==> s[i] == run[i] && !IsPrintable(s[i]);
    assert rest != [] ==> s[|run|] == rest[0] && IsPrintable(s[|run|]);
  }

  /**
   A name is written as it is, except that "&" becomes "&-" and each longest run of other bytes becomes "&", the
   base64 of its UTF-16 without the "=" at its end, and "-"; "," stands for 63 in this base64.
   */
  lemma NameIs(p: bytes, run: bytes, rest: bytes)
    requires IsPlain(p) && run != [] && forall i :: 0 <= i < |run| ==> run[i] < 0x20 || run[i] > 0x7E
    requires rest == [] || 0x20 <= rest[0] <= 0x7E
    ensures Encoded(p + run + rest)
            == p + (Substrings.Ascii("&") + SegmentText(run) + Substrings.Ascii("-") + Encoded(rest))
    ensures exists pad :: SegmentText(run) + pad == Base64.Encode(FromRuneSeq(Runes(run)), 0x2C)
                          && forall x :: x in pad ==> x == 0x3D
    ensures 0x3D !in SegmentText(run)
  {
    hide Encoded, SegmentText, RunLen, Substrings.Ascii;
    Signs();
    PlainEncoded(p, run + rest);
    assert p + run + rest == p + (run + rest);
    RunLenIs(run, rest);
    EncodedStep(run + rest);
    assert (run + rest)[..|run|] == run && (run + rest)[|run|..] == rest;
    PaddingIs(run);
  }

  lemma Signs()
    ensures Substrings.Ascii("&") == [AMP] && Substrings.Ascii("-") == [DASH]
  {
  }

  lemma AmpersandIs(rest: bytes)
    ensures Encoded(Substrings.Ascii("&") + rest) == Substrings.Ascii("&") + Substrings.Ascii("-") + Encoded(rest)
  {
    hide Encoded, Substrings.Ascii;
    Signs();
    EncodedStep([AMP] + rest);
    assert ([AMP] + rest)[1..] == rest;
    assert [AMP, DASH] == [AMP] + [DASH];
  }

  lemma PaddingIs(run: bytes)
    ensures exists pad :: SegmentText(run) + pad == Base64.Encode(FromRuneSeq(Runes(run)), 0x2C)
                          && forall x :: x in pad ==> x == 0x3D
    ensures 0x3D !in SegmentText(run)
  {
    var u := FromRuneSeq(Runes(run));
    hide Base64.Encode, FromRuneSeq, Runes;
    var t := Base64.Encode(u, Base64.MAILBOX);
    Base64.EncodeShape(u, Base64.MAILBOX);
    var n := |t| - Base64.PadCount(|u|);
    assert SegmentText(run) + t[n..] == t;
  }

  /** Control characters, an "&" without its "-", and a line break behind an "&" are refused. */
  lemma Refused(p: bytes, c: byte, q: bytes, rest: bytes)
    requires IsPlain(p) && (c < 0x20 || c == 0x7F) && 0x2D !in q
    ensures Decoded(p + [c] + rest) == None
    ensures Decoded(p + Substrings.Ascii("&") + q) == None
    ensures 10 in q || 13 in q ==> Decoded(p + Substrings.Ascii("&") + q + Substrings.Ascii("-") + rest) == None
  {
    hide Scan, Valid;
    assert Substrings.Ascii("&") == [AMP] && Substrings.Ascii("-") == [DASH];
    PlainScanned(p, [c] + rest);
    assert p + [c] + rest == p + ([c] + rest);
    ScanStep([c] + rest, true);
    ScanStep([c] + rest, false);
    ShiftScanned(p, q, []);
    assert p + [AMP] + q == p + ([AMP] + q);
    if 10 in q || 13 in q {
      ShiftScanned(p, q, [DASH] + rest);
      assert p + [AMP] + q + [DASH] + rest == p + ([AMP] + (q + ([DASH] + rest)));
    }
  }

  lemma {:induction false} PlainScanned(p: bytes, rest: bytes)
    requires IsPlain(p)
    ensures Scan(rest, true) == None && Scan(rest, false) == None ==> Scan(p + rest, true) == None
    ensures Scan(rest, true) == None && Scan(rest, false) == None ==> Scan(p + rest, false) == None
  {
    hide Scan;
    if p == [] {
      assert p + rest == rest;
    } else {
      ScanStep(p + rest, true);
      ScanStep(p + rest, false);
      assert (p + rest)[1..] == p[1..] + rest;
      PlainScanned(p[1..], rest);
    }
  }

  lemma ShiftScanned(p: bytes, q: bytes, rest: bytes)
    requires IsPlain(p) && 0x2D !in q && (rest == [] || (rest[0] == DASH && (10 in q || 13 in q)))
    ensures Scan(p + ([AMP] + (q + rest)), true) == None
    ensures rest == [] ==> Scan(p + ([AMP] + q), true) == None
  {
    hide Scan;
    var t := [AMP] + (q + rest);
    assert forall i :: 0 <= i < |q| ==> t[i + 1] == q[i];
    var k: nat := |q|;
    if rest == [] {
      assert q + rest == q;
    } else {
      k :| 0 <= k < |q| && (q[k] == 10 || q[k] == 13);
    }
    ScanBadShift(t, true, k);
    ScanBadShift(t, false, k);
    PlainScanned(p, t);
  }

  /** From the section itself: U+53F0 U+5317 is "&U,BTFw-". */
  lemma TaipeiIs()
    ensures Encoded([0xE5, 0x8F, 0xB0, 0xE5, 0x8C, 0x97])
            == Substrings.Ascii("&") + Substrings.Ascii("U,BTFw") + Substrings.Ascii("-")
  {
    hide Encoded, SegmentText, Base64.Encode, Runes, FromRuneSeq, Substrings.Ascii;
    var run: bytes := [0xE5, 0x8F, 0xB0, 0xE5, 0x8C, 0x97];
    TwoRunes();
    TaipeiText();
    NameIs([], run, []);
    assert [] + run + [] == run;
    EncodedStep([]);
    var pad :| SegmentText(run) + pad == Base64.Encode([0x53, 0xF0, 0x53, 0x17], 0x2C)
               && forall x :: x in pad ==> x == 0x3D;
    StripPadding(SegmentText(run), pad, Substrings.Ascii("U,BTFw"));
  }

  lemma TaipeiText()
    ensures Base64.Encode([0x53, 0xF0, 0x53, 0x17], 0x2C) == Substrings.Ascii("U,BTFw") + [0x3D, 0x3D]
    ensures 0x3D !in Substrings.Ascii("U,BTFw")
  {
    hide Base64.Encode, Base64.Char;
    var u: bytes := [0x53, 0xF0, 0x53, 0x17];
    assert u == [0x53, 0xF0, 0x53] + [0x17];
    Base64.GroupIs(0x53, 0xF0, 0x53, [0x17], 0x2C);
    Base64.EndIs(0x17, 0, 0x2C);
    Digits();
    assert Substrings.Ascii("U,BTFw") == [0x55, 0x2C, 0x42, 0x54, 0x46, 0x77];
    assert Substrings.Ascii("==") == [0x3D, 0x3D];
  }

  lemma Digits()
    ensures Base64.Char(20, 0x2C) == 0x55 && Base64.Char(63, 0x2C) == 0x2C && Base64.Char(1, 0x2C) == 0x42
    ensures Base64.Char(19, 0x2C) == 0x54 && Base64.Char(5, 0x2C) == 0x46 && Base64.Char(48, 0x2C) == 0x77
  {
  }

  lemma StripPadding(text: bytes, pad: bytes, t: bytes)
    requires 0x3D !in text && 0x3D !in t
    requires text + pad == t + [0x3D, 0x3D] && forall x :: x in pad ==> x == 0x3D
    ensures text == t
  {
    var whole := text + pad;
    assert forall i :: 0 <= i < |text| ==> whole[i] == text[i];
    assert forall i :: 0 <= i < |t| ==> whole[i] == t[i];
    forall i | |text| <= i < |whole|
      ensures whole[i] == 0x3D
    {
      assert pad[i - |text|] in pad;
    }
    SameStart(whole, |text|, |t|);
    assert text == whole[..|t|];
  }

  lemma SameStart(whole: bytes, m: nat, n: nat)
    requires m <= |whole| && n < |whole| && forall i :: m <= i < |whole| ==> whole[i] == 0x3D
    requires forall i :: 0 <= i < m ==> whole[i] != 0x3D
    requires (forall i :: 0 <= i < n ==> whole[i] != 0x3D) && whole[n] == 0x3D
    ensures m == n
  {
    if m < |whole| {
      assert whole[m] == 0x3D;
    }
  }

  lemma TwoRunes()
    ensures FromRuneSeq(Runes([0xE5, 0x8F, 0xB0, 0xE5, 0x8C, 0x97])) == [0x53, 0xF0, 0x53, 0x17]
  {
    var s: bytes := [0xE5, 0x8F, 0xB0, 0xE5, 0x8C, 0x97];
    var t: bytes := [0xE5, 0x8C, 0x97];
    assert s[3..] == t && t[3..] == [];
    assert SeqLen(s) == 3 && Rune(s) == 0x53F0;
    assert SeqLen(t) == 3 && Rune(t) == 0x5317;
    hide Rune, SeqLen, Runes, FromRuneSeq;
    UnreadRunes(s);
    UnreadRunes(t);
    UnreadRunes([]);
  }
}
