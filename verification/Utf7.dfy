/** Modified UTF-7 mailbox names (section 5.1.3 of RFC 3501). */
module Utf7 {
  import opened Bytes
  import opened Utf8
  import opened Utf16
  import Base64

  const AMP: byte := 0x26
  const DASH: byte := 0x2D

  // ---- What the encoder writes

  /** The number of bytes in front that are not printable ASCII. */
  function RunLen(s: bytes): (n: nat)
    ensures n <= |s|
    ensures forall i :: 0 <= i < n ==> !IsPrintable(s[i])
    ensures n < |s| ==> IsPrintable(s[n])
  {
    if s == [] || IsPrintable(s[0]) then 0 else 1 + RunLen(s[1..])
  }

  /** A run's base64 text without padding. */
  function SegmentText(run: bytes): bytes {
    var u := FromRuneSeq(Runes(run));
    Base64.EncodeShape(u, Base64.MAILBOX);
    var t := Base64.Encode(u, Base64.MAILBOX);
    t[..|t| - Base64.PadCount(|u|)]
  }

  function EncodedRun(run: bytes): bytes {
    [AMP] + SegmentText(run) + [DASH]
  }

  function EncodedChar(c: byte): bytes {
    if c == AMP then [AMP, DASH] else [c]
  }

  function Encoded(s: bytes): bytes
    decreases |s|
  {
    if s == [] then []
    else if IsPrintable(s[0]) then EncodedChar(s[0]) + Encoded(s[1..])
    else EncodedRun(s[..RunLen(s)]) + Encoded(s[RunLen(s)..])
  }

  // ---- What the decoder accepts

  /** The segment with '=' restored up to a multiple of four; a lone last character cannot be completed. */
  function Padded(b64: bytes): bytes {
    match |b64| % 4
    case 0 => b64
    case 1 => b64 + [Base64.PAD, Base64.PAD, 0]
    case 2 => b64 + [Base64.PAD, Base64.PAD]
    case _ => b64 + [Base64.PAD]
  }

  function DecodedSegment(b64: bytes): Option<bytes>
    requires b64 != []
  {
    if b64[|b64| - 1] == Base64.PAD then None
    else
      match Base64.Decode(Padded(b64), Base64.MAILBOX)
      case None => None
      case Some(u) => ToUtf8(u)
  }

  predicate HasNewline(s: bytes) {
    exists i :: 0 <= i < |s| && (s[i] == Base64.CR || s[i] == Base64.LF)
  }

  /** The decoder's scan; `ascii` is false right after a base64 segment. */
  function Scan(t: bytes, ascii: bool): Option<bytes>
    decreases |t|
  {
    if t == [] then Some([])
    else if t[0] < MIN || MAX < t[0] < 0x80 then None
    else if t[0] != AMP then Prepend([t[0]], Scan(t[1..], true))
    else
      var k := IndexOf(t[1..], DASH);
      if k == |t[1..]| || HasNewline(t[1..][..k]) then None
      else if k == 0 then Prepend([AMP], Scan(t[2..], true))
      else if !ascii then None
      else
        match DecodedSegment(t[1..][..k])
        case None => None
        case Some(b) => if b == [] then None else Prepend(b, Scan(t[k + 2..], false))
  }

  function Decoded(t: bytes): Option<bytes> {
    if Valid(t) then Scan(t, true) else None
  }

  // ---- The encoder

  lemma UnreadRunes(s: bytes)
    ensures s == [] ==> FromRuneSeq(Runes(s)) == []
    ensures s != [] ==> FromRuneSeq(Runes(s)) == FromRune(Rune(s)) + FromRuneSeq(Runes(s[RuneLen(s)..]))
  {
    if s != [] {
      assert Runes(s)[1..] == Runes(s[RuneLen(s)..]);
    }
  }

  method ToUtf16(run: bytes) returns (b: bytes)
    ensures b == FromRuneSeq(Runes(run))
  {
    hide FromRuneSeq, Runes, Rune, RuneLen;
    var s := run;
    b := [];
    while |s| > 0
      invariant FromRuneSeq(Runes(run)) == b + FromRuneSeq(Runes(s))
      decreases |s|
    {
      UnreadRunes(s);
      ghost var before, unit := b, FromRune(Rune(s));
      var r: int, size := Rune(s), RuneLen(s);
      s := s[size..];
      if r >= 0x10000 {
        var r1 := 0xD800 + (r - 0x10000) / 1024;
        b := b + [r1 / 256, r1 % 256];
        r := 0xDC00 + (r - 0x10000) % 1024;
      }
      b := b + [r / 256, r % 256];
      assert b == before + unit;
      Assoc(before, unit, FromRuneSeq(Runes(s)));
    }
    UnreadRunes(s);
  }

  /** encode: UTF-8 to UTF-16 to base64, with the padding overwritten by the closing shift. */
  method EncodeRun(run: bytes) returns (out: bytes)
    ensures out == EncodedRun(run)
  {
    hide FromRuneSeq, Runes, Base64.Encode;
    var b := ToUtf16(run);
    Base64.EncodeShape(b, Base64.MAILBOX);
    var text := Base64.Encode(b, Base64.MAILBOX);
    var n := (|b| + 2) / 3 * 4 + 2;
    var b64 := new byte[n];
    for k := 0 to |text|
      invariant forall q :: 0 <= q < k ==> b64[1 + q] == text[q]
    {
      b64[1 + k] := text[k];
    }
    n := n - (2 - (|b| + 2) % 3);
    assert b64[1..n - 1] == text[..n - 2];
    b64[0] := AMP;
    b64[n - 1] := DASH;
    out := b64[..n];
    assert out == [AMP] + text[..n - 2] + [DASH];
  }

  lemma {:induction false} RunLenUnique(s: bytes, n: nat)
    requires n <= |s|
    requires forall i :: 0 <= i < n ==> !IsPrintable(s[i])
    requires n < |s| ==> IsPrintable(s[n])
    ensures RunLen(s) == n
  {
    if n > 0 {
      RunLenUnique(s[1..], n - 1);
    }
  }

  lemma EncodedStep(s: bytes)
    ensures s == [] ==> Encoded(s) == []
    ensures s != [] && IsPrintable(s[0]) ==> Encoded(s) == EncodedChar(s[0]) + Encoded(s[1..])
    ensures s != [] && !IsPrintable(s[0]) ==>
              Encoded(s) == EncodedRun(s[..RunLen(s)]) + Encoded(s[RunLen(s)..])
  {
  }

  method Encode(src: bytes) returns (sb: bytes)
    ensures sb == Encoded(src)
  {
    hide Encoded, EncodedRun, RunLen;
    sb := [];
    var i := 0;
    assert src[0..] == src;
    while i < |src|
      invariant 0 <= i <= |src|
      invariant Encoded(src) == sb + Encoded(src[i..])
    {
      var ch := src[i];
      ghost var before, t := sb, src[i..];
      if MIN <= ch <= MAX {
        sb := sb + [ch];
        if ch == AMP {
          sb := sb + [DASH];
        }
        i := i + 1;
        assert t[1..] == src[i..];
        assert sb == before + EncodedChar(ch);
        EncodedStep(t);
        Assoc(before, EncodedChar(ch), Encoded(src[i..]));
      } else {
        var start := i;
        i := i + 1;
        while i < |src| && (src[i] < MIN || src[i] > MAX)
          invariant start < i <= |src|
          invariant forall q :: start <= q < i ==> !IsPrintable(src[q])
        {
          i := i + 1;
        }
        RunLenUnique(t, i - start);
        assert t[..i - start] == src[start..i] && t[i - start..] == src[i..];
        var seg := EncodeRun(src[start..i]);
        sb := sb + seg;
        EncodedStep(t);
        Assoc(before, seg, Encoded(src[i..]));
      }
    }
    EncodedStep(src[i..]);
  }

  // ---- The decoder

  /** utf8.EncodeRune and copy write into a slice of a larger buffer; nothing else changes. */
  method WriteAt(b: array<byte>, at: nat, s: bytes)
    requires at + |s| <= b.Length
    modifies b
    ensures forall k :: 0 <= k < |s| ==> b[at + k] == s[k]
    ensures forall k :: 0 <= k < b.Length && !(at <= k < at + |s|) ==> b[k] == old(b[k])
  {
    for k := 0 to |s|
      invariant forall q :: 0 <= q < k ==> b[at + q] == s[q]
      invariant forall q :: 0 <= q < b.Length && !(at <= q < at + k) ==> b[q] == old(b[q])
    {
      b[at + k] := s[k];
    }
  }

  /** The padded text, byte by byte. */
  lemma PaddedBytes(b64: bytes, t: bytes)
    requires |b64| % 4 != 0 && |t| == |b64| + 4 - |b64| % 4 && t[..|b64|] == b64
    requires forall k :: |b64| <= k < |t| ==> t[k] == if k < |b64| + 2 then Base64.PAD else 0
    ensures t == Padded(b64)
  {
  }

  lemma PaddedLength(b64: bytes, quads: nat)
    requires 4 * quads == |b64| + if |b64| % 4 == 0 then 0 else 4 - |b64| % 4
    ensures |Padded(b64)| == 4 * quads
  {
  }

  /** The single allocation: the padded text when padding is needed, then room for three times the decoded bytes. */
  method Allocate(b64In: bytes) returns (b: array<byte>, base: nat, b64: bytes, ghost quads: nat)
    ensures fresh(b)
    ensures b64 == Padded(b64In) && |b64| == 4 * quads
    ensures b.Length == base + 9 * quads
  {
    hide Padded;
    var n := |b64In|;
    b64, base := b64In, 0;
    if n % 4 == 0 {
      b := new byte[n / 4 * 3 * 3];
      NothingPadded(b64In);
    } else {
      n := n + 4 - n % 4;
      b := new byte[n + n / 4 * 3 * 3](_ => 0);
      WriteAt(b, 0, b64);
      b[|b64|] := Base64.PAD;
      if |b64| + 1 < n {
        b[|b64| + 1] := Base64.PAD;
      }
      assert b[..n][..|b64|] == b64;
      PaddedBytes(b64, b[..n]);
      b64, base := b[..n], n;
    }
    quads := n / 4;
    PaddedLength(b64In, quads);
  }

  lemma NothingPadded(b64: bytes)
    requires |b64| % 4 == 0
    ensures Padded(b64) == b64
  {
  }

  /** Reads one rune of UTF-16 from the buffer, with the bytes it takes; None where decode gives up. */
  method NextRune(b: array<byte>, at: nat, end: nat, ghost u: bytes) returns (front: Option<(scalar, nat)>)
    requires at + |u| == end <= b.Length && (|u| == 2 || |u| >= 4)
    requires forall k :: 0 <= k < |u| ==> b[at + k] == u[k]
    ensures front == Front(u)
  {
    var r: int := b[at] as int * 256 + b[at + 1];
    assert r == Unit(u, 0);
    if IsSurrogate(r) {
      if at + 2 == end {
        return None;
      }
      var r2: int := b[at + 2] as int * 256 + b[at + 3];
      assert r2 == Unit(u, 2);
      if !(r < 0xDC00 && 0xDC00 <= r2 <= 0xDFFF) {
        return None;
      }
      return Some(((r - 0xD800) * 1024 + (r2 - 0xDC00) + 0x10000, 4));
    } else if MIN <= r <= MAX {
      return None;
    }
    return Some((r, 2));
  }

  lemma ToUtf8Step(u: bytes)
    ensures u == [] ==> ToUtf8(u) == Some([])
    ensures |u| == 1 ==> ToUtf8(u) == None
    ensures |u| >= 2 && Front(u) == None ==> ToUtf8(u) == None
    ensures |u| >= 2 && Front(u).Some? ==>
              ToUtf8(u) == Prepend(EncodeRune(Front(u).value.0), ToUtf8(u[Front(u).value.1..]))
  {
  }

  /**
   Reads n bytes of UTF-16 at `base` and writes their UTF-8 form right behind them, in the same buffer. The
   room for three times the UTF-16 is never exceeded.
   */
  method Transcode(b: array<byte>, base: nat, n: nat, ghost half: nat) returns (r: Option<bytes>)
    requires n == 2 * half && base + 3 * n <= b.Length
    modifies b
    ensures r == ToUtf8(old(b[base..base + n]))
  {
    hide ToUtf8, Front, EncodeRune;
    ghost var u, text: bytes := b[base..base + n], [];
    var top := base + n;
    var i, j := 0, 0;
    ghost var units := 0;
    assert u[0..] == u;
    PrependNothing(ToUtf8(u));
    while i < n
      invariant i == 2 * units && 0 <= units <= half
      invariant 0 <= j <= 3 * units && |text| == j
      invariant forall k :: 0 <= k < n ==> b[base + k] == u[k]
      invariant forall k :: 0 <= k < j ==> b[top + k] == text[k]
      invariant ToUtf8(u) == Prepend(text, ToUtf8(u[i..]))
    {
      ghost var rest := u[i..];
      forall k | 0 <= k < |rest|
        ensures b[base + i + k] == rest[k]
      {
        assert rest[k] == u[i + k];
      }
      var front := NextRune(b, base + i, top, rest);
      ToUtf8Step(rest);
      if front == None {
        return None;
      }
      var w, size := front.value.0, front.value.1;
      i, units := i + size, units + (if size == 2 then 1 else 2);
      assert rest[size..] == u[i..];
      var enc := EncodeRune(w);
      WriteAt(b, top + j, enc);
      PrependTwice(text, enc, ToUtf8(u[i..]));
      text := text + enc;
      j := j + |enc|;
    }
    assert u[n..] == [];
    ToUtf8Step([]);
    assert b[top..top + j] == text && text + [] == text;
    r := Some(b[top..top + j]);
  }

  /** decode: base64, UTF-16 and UTF-8 in one buffer; every write is inside it. */
  method DecodeSegment(b64In: bytes) returns (r: Option<bytes>)
    requires b64In != []
    ensures r == DecodedSegment(b64In)
  {
    if b64In[|b64In| - 1] == Base64.PAD {
      return None;
    }
    hide Base64.Decode, Padded, ToUtf8;
    var b, base, b64, quads := Allocate(b64In);
    var dst := Base64.Decode(b64, Base64.MAILBOX);
    if dst == None {
      return None;
    }
    Base64.DecodedLength(b64, Base64.MAILBOX);
    if |dst.value| % 2 == 1 {
      OddIsRejected(dst.value);
      return None;
    }
    WriteAt(b, base, dst.value);
    assert b[base..base + |dst.value|] == dst.value;
    r := Transcode(b, base, |dst.value|, |dst.value| / 2);
  }

  lemma {:induction false} OddIsRejected(u: bytes)
    requires |u| % 2 == 1
    ensures ToUtf8(u) == None
    decreases |u|
  {
    hide ToUtf8, Front;
    ToUtf8Step(u);
    if |u| > 1 && Front(u).Some? {
      OddIsRejected(u[Front(u).value.1..]);
    }
  }

  /** The scanner's cases, one at a time. */
  lemma ScanStep(t: bytes, ascii: bool)
    ensures t == [] ==> Scan(t, ascii) == Some([])
    ensures t != [] && (t[0] < MIN || MAX < t[0] < 0x80) ==> Scan(t, ascii) == None
    ensures t != [] && t[0] != AMP && !(t[0] < MIN || MAX < t[0] < 0x80) ==>
              Scan(t, ascii) == Prepend([t[0]], Scan(t[1..], true))
  {
  }

  /** The scanner on a shift without a terminated, newline-free segment. */
  lemma ScanBadShift(t: bytes, ascii: bool, k: nat)
    requires t != [] && t[0] == AMP && k < |t|
    requires forall i :: 1 <= i <= k ==> t[i] != DASH
    requires k + 1 == |t| || t[k + 1] == Base64.CR || t[k + 1] == Base64.LF
    ensures Scan(t, ascii) == None
  {
    var u := t[1..];
    assert forall i :: 0 <= i < k ==> u[i] == t[i + 1];
    var d := IndexOf(u, DASH);
    if d < |u| {
      assert u[..d][k] == t[k + 1];
    }
  }

  /** The scanner on a shift: the segment ends at the first dash. */
  lemma ScanShift(t: bytes, ascii: bool, k: nat)
    requires t != [] && t[0] == AMP && k + 1 < |t| && t[k + 1] == DASH
    requires forall i :: 1 <= i <= k ==> t[i] != DASH && t[i] != Base64.CR && t[i] != Base64.LF
    ensures Scan(t, ascii) ==
            if k == 0 then Prepend([AMP], Scan(t[2..], true))
            else if !ascii then None
            else
              match DecodedSegment(t[1..k + 1])
              case None => None
              case Some(b) => if b == [] then None else Prepend(b, Scan(t[k + 2..], false))
  {
    var u := t[1..];
    assert u[k] == DASH;
    assert forall i :: 0 <= i < k ==> u[i] == t[i + 1];
    assert IndexOf(u, DASH) == k;
    assert u[..k] == t[1..k + 1];
  }

  /** The inner loop of Decode: the position of the dash that ends the segment. */
  method SegmentEnd(src: bytes, start: nat, ascii: bool) returns (end: Option<nat>)
    requires 0 < start <= |src| && src[start - 1] == AMP
    ensures end == None ==> Scan(src[start - 1..], ascii) == None
    ensures end.Some? ==> start <= end.value < |src| && src[end.value] == DASH
                          && forall q :: start <= q < end.value ==>
                               src[q] != DASH && src[q] != Base64.CR && src[q] != Base64.LF
  {
    hide Scan;
    ghost var t := src[start - 1..];
    var i := start;
    while i < |src| && src[i] != DASH
      invariant start <= i <= |src|
      invariant forall q :: start <= q < i ==> src[q] != DASH && src[q] != Base64.CR && src[q] != Base64.LF
    {
      if src[i] == Base64.CR || src[i] == Base64.LF {
        ScanBadShift(t, ascii, i - start);
        return None;
      }
      i := i + 1;
    }
    if i == |src| {
      ScanBadShift(t, ascii, i - start);
      return None;
    }
    end := Some(i);
  }

  /** One shift of Decode: the text it stands for, the position behind it and the new shift state. */
  method Shift(src: bytes, at: nat, ascii: bool) returns (piece: Option<bytes>, next: nat, nowAscii: bool)
    requires at < |src| && src[at] == AMP
    ensures piece == None ==> Scan(src[at..], ascii) == None
    ensures piece.Some? ==> at < next <= |src|
                            && Scan(src[at..], ascii) == Prepend(piece.value, Scan(src[next..], nowAscii))
  {
    hide Scan, DecodedSegment;
    var start := at + 1;
    next, nowAscii := start, ascii;
    var end := SegmentEnd(src, start, ascii);
    if end == None {
      return None, next, nowAscii;
    }
    var i := end.value;
    ghost var t := src[at..];
    ScanShift(t, ascii, i - start);
    assert t[i - start + 2..] == src[i + 1..];
    next := i + 1;
    if i == start {
      piece, nowAscii := Some([AMP]), true;
    } else {
      if !ascii {
        return None, next, nowAscii;
      }
      assert t[1..i - start + 1] == src[start..i];
      piece := DecodeSegment(src[start..i]);
      if piece == Some([]) {
        piece := None;
      }
      nowAscii := false;
    }
  }

  method Decode(src: bytes) returns (r: Option<bytes>)
    ensures r == Decoded(src)
  {
    if !Valid(src) {
      return None;
    }
    hide Scan, Valid;
    var sb: bytes := [];
    var ascii := true;
    var i := 0;
    assert src[0..] == src;
    PrependNothing(Scan(src, true));
    while i < |src|
      invariant 0 <= i <= |src|
      invariant Scan(src, true) == Prepend(sb, Scan(src[i..], ascii))
    {
      var ch := src[i];
      if ch < MIN || (ch > MAX && ch < 0x80) {
        ScanStep(src[i..], ascii);
        return None;
      }
      if ch != AMP {
        ScanStep(src[i..], ascii);
        assert src[i..][1..] == src[i + 1..];
        PrependTwice(sb, [ch], Scan(src[i + 1..], true));
        sb := sb + [ch];
        ascii := true;
        i := i + 1;
      } else {
        var piece, next, nowAscii := Shift(src, i, ascii);
        if piece == None {
          return None;
        }
        PrependTwice(sb, piece.value, Scan(src[next..], nowAscii));
        sb := sb + piece.value;
        i, ascii := next, nowAscii;
      }
    }
    ScanStep([], ascii);
    assert src[i..] == [] && sb + [] == sb;
    r := Some(sb);
  }
}
