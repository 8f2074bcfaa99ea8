/** RFC 2047 encoded-words in mail headers: the encoder and the header decoder. */
module EncodedWord {
  import opened Bytes
  import opened Utf8
  import Base64

  const QUESTION: byte := 0x3F
  const EQUALS: byte := 0x3D
  const SPACE: byte := 0x20
  const UNDERSCORE: byte := 0x5F
  const TAB: byte := 0x09
  const LF: byte := 0x0A
  const CR: byte := 0x0D

  /** WordEncoder: the letter it writes between the question marks. */
  datatype WordEncoder = BEncoding | QEncoding {
    function Letter(): byte { if BEncoding? then 'b' as int else 'q' as int }
  }

  /** maxContentLen: 75 less the 12 characters around the text when the charset is UTF-8. */
  const MAX_CONTENT_LEN := 63

  /** maxBase64Len: DecodedLen(maxContentLen). */
  const MAX_BASE64_LEN := MAX_CONTENT_LEN / 4 * 3

  // ---- Charset names

  /** Simple case folding onto lower-case ASCII: besides A-Z, only the Kelvin sign and the long s fold there. */
  function FoldRune(r: int): int {
    if 'A' as int <= r <= 'Z' as int then r + 32
    else if r == 0x212A then 'k' as int
    else if r == 0x17F then 's' as int
    else r
  }

  function Fold(rs: seq<scalar>): seq<int> {
    if rs == [] then [] else [FoldRune(rs[0])] + Fold(rs[1..])
  }

  /** strings.EqualFold against a lower-case ASCII name. */
  predicate EqualFold(s: bytes, name: seq<int>) {
    Fold(Runes(s)) == name
  }

  const UTF_8: seq<int> := [0x75, 0x74, 0x66, 0x2D, 0x38]
  const ISO_8859_1: seq<int> := [0x69, 0x73, 0x6F, 0x2D, 0x38, 0x38, 0x35, 0x39, 0x2D, 0x31]
  const US_ASCII: seq<int> := [0x75, 0x73, 0x2D, 0x61, 0x73, 0x63, 0x69, 0x69]

  predicate IsUtf8(charset: bytes) { EqualFold(charset, UTF_8) }

  // ---- What the encoder writes

  predicate NeedsEncodingRune(r: int) { (r < 0x20 || r > 0x7E) && r != TAB }

  predicate NeedsEncoding(s: bytes) {
    s != [] && (NeedsEncodingRune(Rune(s)) || NeedsEncoding(s[RuneLen(s)..]))
  }

  /** Printable ASCII that Q encoding may leave alone or, for a space, write as '_'. */
  predicate IsQPlain(b: byte) {
    0x20 <= b <= 0x7E && b != EQUALS && b != QUESTION && b != UNDERSCORE
  }

  function UpperHex(v: int): (c: byte)
    requires 0 <= v < 16
    ensures c != QUESTION && FromHex(c) == Some(v)
  {
    if v < 10 then 0x30 + v else 0x41 + (v - 10)
  }

  function QByte(b: byte): (t: bytes)
    ensures |t| == if IsQPlain(b) then 1 else 3
    ensures forall i :: 0 <= i < |t| ==> t[i] != QUESTION
  {
    if b == SPACE then [UNDERSCORE]
    else if IsQPlain(b) then [b]
    else [EQUALS, UpperHex(b / 16), UpperHex(b % 16)]
  }

  function QText(s: bytes): bytes {
    if s == [] then [] else QByte(s[0]) + QText(s[1..])
  }

  /** The encoded text of one word. */
  function Text(e: WordEncoder, chunk: bytes): bytes {
    match e
    case BEncoding => Base64.Encode(chunk, Base64.STANDARD)
    case QEncoding => QText(chunk)
  }

  function Open(e: WordEncoder, charset: bytes): bytes {
    [EQUALS, QUESTION] + charset + [QUESTION, e.Letter(), QUESTION]
  }

  const CLOSE: bytes := [QUESTION, EQUALS]

  function Word(e: WordEncoder, charset: bytes, chunk: bytes): bytes {
    Open(e, charset) + Text(e, chunk) + CLOSE
  }

  /** What closes a word and opens the next one. */
  function Seam(e: WordEncoder, charset: bytes): bytes {
    CLOSE + [SPACE] + Open(e, charset)
  }

  /** The words' texts with a seam between neighbours. */
  function Body(e: WordEncoder, charset: bytes, chunks: seq<bytes>): bytes {
    if chunks == [] then []
    else if |chunks| == 1 then Text(e, chunks[0])
    else Text(e, chunks[0]) + (Seam(e, charset) + Body(e, charset, chunks[1..]))
  }

  /** The length a piece is charged with: bytes for B, characters of text for Q. */
  function Cost(e: WordEncoder, s: bytes): nat {
    match e
    case BEncoding => |s|
    case QEncoding => |QText(s)|
  }

  function Limit(e: WordEncoder): nat {
    match e
    case BEncoding => MAX_BASE64_LEN
    case QEncoding => MAX_CONTENT_LEN
  }

  /** The chunks the encoder cuts `s` into, rune by rune, `cur` being the chunk under way. */
  function Chunks(e: WordEncoder, s: bytes, cur: bytes): (chunks: seq<bytes>)
    ensures chunks != []
    decreases |s|
  {
    if s == [] then [cur]
    else
      var n := RuneLen(s);
      if Cost(e, cur) + Cost(e, s[..n]) <= Limit(e) then Chunks(e, s[n..], cur + s[..n])
      else [cur] + Chunks(e, s[n..], s[..n])
  }

  function Encoded(e: WordEncoder, charset: bytes, s: bytes): bytes {
    if NeedsEncoding(s) then
      Open(e, charset) + Body(e, charset, if IsUtf8(charset) then Chunks(e, s, []) else [s]) + CLOSE
    else s
  }

  // ---- What the decoder reads

  function FromHex(b: byte): (v: Option<int>)
    ensures v.Some? ==> 0 <= v.value < 16
  {
    if 0x30 <= b <= 0x39 then Some(b - 0x30)
    else if 0x41 <= b <= 0x46 then Some(b - 0x41 + 10)
    else if 0x61 <= b <= 0x66 then Some(b - 0x61 + 10)
    else None
  }

  function HexByte(a: byte, b: byte): Option<byte> {
    match (FromHex(a), FromHex(b))
    case (Some(h), Some(l)) => Some(h * 16 + l)
    case _ => None
  }

  /** A byte Q decoding takes as it stands. */
  predicate IsQLiteral(c: byte) {
    0x20 <= c <= 0x7E || c == LF || c == CR || c == TAB
  }

  function QDecoded(t: bytes): Option<bytes>
    decreases |t|
  {
    if t == [] then Some([])
    else if t[0] == UNDERSCORE then Prepend([SPACE], QDecoded(t[1..]))
    else if t[0] == EQUALS then
      if |t| < 3 || HexByte(t[1], t[2]) == None then None
      else Prepend([HexByte(t[1], t[2]).value], QDecoded(t[3..]))
    else if IsQLiteral(t[0]) then Prepend([t[0]], QDecoded(t[1..]))
    else None
  }

  function DecodedText(encoding: byte, text: bytes): Option<bytes> {
    if encoding == 'B' as int || encoding == 'b' as int then Base64.Decode(text, Base64.STANDARD)
    else if encoding == 'Q' as int || encoding == 'q' as int then QDecoded(text)
    else None
  }

  /** ISO-8859-1 bytes as UTF-8. */
  function Latin1(content: bytes): bytes {
    if content == [] then [] else EncodeRune(content[0]) + Latin1(content[1..])
  }

  /** US-ASCII with every byte outside it replaced. */
  function Ascii(content: bytes): bytes {
    if content == [] then []
    else (if content[0] >= 0x80 then REPLACEMENT else [content[0]]) + Ascii(content[1..])
  }

  /** A conversion the package hands to a library or to the caller: GBK, GB18030, CharsetReader. */
  type OtherCharsets = (bytes, bytes) -> Option<bytes>

  function Converted(charset: bytes, content: bytes, other: OtherCharsets): Option<bytes> {
    if EqualFold(charset, UTF_8) then Some(content)
    else if EqualFold(charset, ISO_8859_1) then Some(Latin1(content))
    else if EqualFold(charset, US_ASCII) then Some(Ascii(content))
    else other(charset, content)
  }

  predicate IsLinearSpace(b: byte) {
    b == SPACE || b == TAB || b == LF || b == CR
  }

  predicate HasNonWhitespace(s: bytes) {
    exists i :: 0 <= i < |s| && !IsLinearSpace(s[i])
  }

  /** The first thing in a header that has the outline of an encoded-word. */
  datatype Outline = Outline(start: nat, charset: bytes, encoding: byte, text: bytes, end: nat)

  /** The encoding letter and the text that follow the charset's question mark, and the length of it all. */
  function ReadText(g: bytes): (w: Option<(byte, bytes, nat)>)
    ensures w.Some? ==> 4 <= w.value.2 <= |g|
  {
    if |g| < 4 || g[1] != QUESTION then None
    else
      var j := IndexOfPair(g[2..], QUESTION, EQUALS);
      if j == |g[2..]| then None else Some((g[0], g[2..2 + j], j + 4))
  }

  /** What follows "=?" as charset, letter and text; `end` counts from there. */
  function Behind(f: bytes): (w: Option<Outline>)
    ensures w.Some? ==> w.value.end <= |f|
  {
    var i := IndexOf(f, QUESTION);
    if i == |f| then None
    else
      match ReadText(f[i + 1..])
      case None => None
      case Some((letter, text, size)) => Some(Outline(0, f[..i], letter, text, i + 1 + size))
  }

  function Moved(start: nat, w: Option<Outline>): Option<Outline> {
    match w
    case None => None
    case Some(o) => Some(o.(start := start, end := start + 2 + o.end))
  }

  /** The next encoded-word by its outline, from the first "=?" on. */
  function FindWord(h: bytes): (w: Option<Outline>)
    ensures w.Some? ==> w.value.start + 2 <= w.value.end <= |h|
  {
    var start := IndexOfPair(h, EQUALS, QUESTION);
    if start == |h| then None else Moved(start, Behind(h[start + 2..]))
  }

  /** The decoder's loop; `betweenWords` right after a decoded word. None when a conversion fails. */
  function Scan(h: bytes, betweenWords: bool, other: OtherCharsets): Option<bytes>
    decreases |h|
  {
    match FindWord(h)
    case None => Some(h)
    case Some(w) =>
      match DecodedText(w.encoding, w.text)
      case None => Prepend(h[..w.start + 2], Scan(h[w.start + 2..], false, other))
      case Some(content) =>
        var gap := if w.start > 0 && (!betweenWords || HasNonWhitespace(h[..w.start])) then h[..w.start] else [];
        match Converted(w.charset, content, other)
        case None => None
        case Some(converted) => Prepend(gap + converted, Scan(h[w.end..], true, other))
  }

  function Decoded(header: bytes, other: OtherCharsets): Option<bytes> {
    var i := IndexOfPair(header, EQUALS, QUESTION);
    if i == |header| then Some(header)
    else Prepend(header[..i], Scan(header[i..], false, other))
  }

  // ---- The encoder

  /** needsEncoding. */
  method CheckNeedsEncoding(s: bytes) returns (needs: bool)
    ensures needs == NeedsEncoding(s)
  {
    var rest := s;
    while |rest| > 0
      invariant NeedsEncoding(s) == NeedsEncoding(rest)
      decreases |rest|
    {
      if NeedsEncodingRune(Rune(rest)) {
        return true;
      }
      rest := rest[RuneLen(rest)..];
    }
    return false;
  }

  lemma {:induction false} QTextAppend(s: bytes, t: bytes)
    ensures QText(s + t) == QText(s) + QText(t)
  {
    if s == [] {
      assert s + t == t;
    } else {
      assert (s + t)[1..] == s[1..] + t;
      QTextAppend(s[1..], t);
      Assoc(QByte(s[0]), QText(s[1..]), QText(t));
    }
  }

  /** writeQString. */
  method WriteQString(buf: bytes, s: bytes) returns (out: bytes)
    ensures out == buf + QText(s)
  {
    hide QText, QByte;
    out := buf;
    QTextAppend([], []);
    QTextOfByte();
    for i := 0 to |s|
      invariant out == buf + QText(s[..i])
    {
      var b := s[i];
      ghost var before := out;
      if b == SPACE {
        out := out + [UNDERSCORE];
      } else if 0x21 <= b <= 0x7E && b != EQUALS && b != QUESTION && b != UNDERSCORE {
        out := out + [b];
      } else {
        out := out + [EQUALS];
        out := out + [UpperHex(b / 16)];
        out := out + [UpperHex(b % 16)];
      }
      QByteIs(b);
      assert out == before + QByte(b);
      QTextAppend(s[..i], [b]);
      assert s[..i] + [b] == s[..i + 1];
      Assoc(buf, QText(s[..i]), QByte(b));
    }
    assert s[..|s|] == s;
  }

  lemma QByteIs(b: byte)
    ensures QByte(b)
            == if b == SPACE then [UNDERSCORE]
               else if 0x21 <= b <= 0x7E && b != EQUALS && b != QUESTION && b != UNDERSCORE then [b]
               else [EQUALS, UpperHex(b / 16), UpperHex(b % 16)]
  {
  }

  lemma QTextOfByte()
    ensures QText([]) == []
    ensures forall b: byte :: QText([b]) == QByte(b)
  {
    forall b: byte
      ensures QText([b]) == QByte(b)
    {
      assert QText([b][1..]) == [];
    }
  }

  /** The chunk under way is closed exactly when the next rune would not fit. */
  lemma ChunksStep(e: WordEncoder, s: bytes, cur: bytes)
    ensures s == [] ==> Chunks(e, s, cur) == [cur]
    ensures s != [] && Cost(e, cur) + Cost(e, s[..RuneLen(s)]) <= Limit(e) ==>
              Chunks(e, s, cur) == Chunks(e, s[RuneLen(s)..], cur + s[..RuneLen(s)])
    ensures s != [] && Cost(e, cur) + Cost(e, s[..RuneLen(s)]) > Limit(e) ==>
              Chunks(e, s, cur) == [cur] + Chunks(e, s[RuneLen(s)..], s[..RuneLen(s)])
  {
  }

  lemma BodyStep(e: WordEncoder, charset: bytes, first: bytes, rest: seq<bytes>)
    ensures Body(e, charset, [first] + rest)
         == if rest == [] then Text(e, first) else Text(e, first) + (Seam(e, charset) + Body(e, charset, rest))
  {
    assert ([first] + rest)[1..] == rest;
  }

  /** A string that fits is one chunk. */
  lemma {:induction false} ChunksShort(s: bytes, cur: bytes)
    requires |cur| + |s| <= MAX_BASE64_LEN
    ensures Chunks(BEncoding, s, cur) == [cur + s]
    decreases |s|
  {
    ChunksStep(BEncoding, s, cur);
    if s == [] {
      assert cur + s == cur;
    } else {
      var n := RuneLen(s);
      ChunksShort(s[n..], cur + s[..n]);
      assert (cur + s[..n]) + s[n..] == cur + s;
    }
  }

  /** bEncode: one base64 stream when the charset is not UTF-8 or the text is short. */
  method BEncode(buf: bytes, charset: bytes, s: bytes) returns (out: bytes)
    ensures out == buf + Body(BEncoding, charset, if IsUtf8(charset) then Chunks(BEncoding, s, []) else [s])
  {
    hide Chunks, Body, Base64.Encode, IsUtf8;
    if !IsUtf8(charset) || (|s| + 2) / 3 * 4 <= MAX_CONTENT_LEN {
      BodyStep(BEncoding, charset, s, []);
      if IsUtf8(charset) {
        ChunksShort(s, []);
        assert [] + s == s;
      }
      assert [s] + [] == [s];
      out := buf + Base64.Encode(s, Base64.STANDARD);
    } else {
      out := BEncodeSplitting(buf, charset, s);
    }
  }

  /** The splitting loop: a closed base64 stream for every chunk. */
  method BEncodeSplitting(buf: bytes, charset: bytes, s: bytes) returns (out: bytes)
    ensures out == buf + Body(BEncoding, charset, Chunks(BEncoding, s, []))
  {
    hide Chunks, Body, Seam, Base64.Encode, RuneLen;
    out := buf;
    var currentLen, last, i := 0, 0, 0;
    ghost var total := Body(BEncoding, charset, Chunks(BEncoding, s, []));
    assert s[0..] == s;
    while i < |s|
      invariant 0 <= last <= i <= |s| && currentLen == i - last
      invariant buf + total == out + Body(BEncoding, charset, Chunks(BEncoding, s[i..], s[last..i]))
      decreases |s| - i
    {
      ghost var cur, rest := s[last..i], s[i..];
      var runeLen := RuneLen(s[i..]);
      ghost var u := s[i..i + runeLen];
      ChunksStep(BEncoding, rest, cur);
      assert rest[runeLen..] == s[i + runeLen..] && rest[..runeLen] == u;
      if currentLen + runeLen <= MAX_BASE64_LEN {
        currentLen := currentLen + runeLen;
        assert cur + u == s[last..i + runeLen];
      } else {
        ghost var later := Chunks(BEncoding, s[i + runeLen..], u);
        BodyStep(BEncoding, charset, cur, later);
        Assoc(out, Text(BEncoding, cur), Seam(BEncoding, charset) + Body(BEncoding, charset, later));
        out := out + Base64.Encode(s[last..i], Base64.STANDARD);
        Assoc(out, Seam(BEncoding, charset), Body(BEncoding, charset, later));
        out := SplitWord(BEncoding, out, charset);
        last := i;
        currentLen := runeLen;
      }
      i := i + runeLen;
    }
    ChunksStep(BEncoding, s[i..], s[last..i]);
    BodyStep(BEncoding, charset, s[last..], []);
    assert s[last..i] == s[last..] && [s[last..]] + [] == [s[last..]];
    out := out + Base64.Encode(s[last..], Base64.STANDARD);
  }

  /** splitWord. */
  method SplitWord(e: WordEncoder, buf: bytes, charset: bytes) returns (out: bytes)
    ensures out == buf + Seam(e, charset)
  {
    out := buf + CLOSE;
    out := out + [SPACE];
    out := out + Open(e, charset);
  }

  /** What one rune costs in Q encoding: 1 when it is plain, otherwise 3 for each of its bytes. */
  lemma RuneCost(s: bytes)
    requires s != []
    ensures IsQPlain(s[0]) ==> RuneLen(s) == 1
    ensures |QText(s[..RuneLen(s)])| == if IsQPlain(s[0]) then 1 else 3 * RuneLen(s)
  {
    var u := s[..RuneLen(s)];
    if RuneLen(s) > 1 {
      MultiByteIsHigh(s);
      QTextEscaped(u);
    } else {
      QTextOfByte();
      assert u == [s[0]];
    }
  }

  lemma {:induction false} QTextEscaped(s: bytes)
    requires forall i :: 0 <= i < |s| ==> !IsQPlain(s[i])
    ensures |QText(s)| == 3 * |s|
  {
    if s != [] {
      QTextEscaped(s[1..]);
    }
  }

  /** qEncode. */
  method QEncode(buf: bytes, charset: bytes, s: bytes) returns (out: bytes)
    ensures out == buf + Body(QEncoding, charset, if IsUtf8(charset) then Chunks(QEncoding, s, []) else [s])
  {
    hide Chunks, Body, QText, IsUtf8;
    if !IsUtf8(charset) {
      BodyStep(QEncoding, charset, s, []);
      assert [s] + [] == [s];
      out := WriteQString(buf, s);
    } else {
      out := QEncodeSplitting(buf, charset, s);
    }
  }

  /** The size of the rune at `i` and of its encoded text. */
  method QRune(s: bytes, i: nat) returns (runeLen: nat, encLen: nat)
    requires i < |s|
    ensures runeLen == RuneLen(s[i..]) && encLen == |QText(s[i..i + runeLen])|
  {
    hide QText, RuneLen;
    var b := s[i];
    RuneCost(s[i..]);
    if 0x20 <= b <= 0x7E && b != EQUALS && b != QUESTION && b != UNDERSCORE {
      runeLen, encLen := 1, 1;
    } else {
      runeLen := RuneLen(s[i..]);
      encLen := 3 * runeLen;
    }
    assert s[i..][..runeLen] == s[i..i + runeLen];
  }

  /** The splitting loop: rune by rune, opening a new word when the text would grow beyond its limit. */
  method QEncodeSplitting(buf: bytes, charset: bytes, s: bytes) returns (out: bytes)
    ensures out == buf + Body(QEncoding, charset, Chunks(QEncoding, s, []))
  {
    hide Chunks, Body, Seam, QText, RuneLen;
    out := buf;
    var currentLen, i := 0, 0;
    ghost var total := Body(QEncoding, charset, Chunks(QEncoding, s, []));
    ghost var head, cur: bytes := buf, [];
    assert s[0..] == s;
    QTextOfByte();
    while i < |s|
      invariant 0 <= i <= |s| && currentLen == |QText(cur)|
      invariant out == head + QText(cur)
      invariant buf + total == head + Body(QEncoding, charset, Chunks(QEncoding, s[i..], cur))
      decreases |s| - i
    {
      var runeLen, encLen := QRune(s, i);
      ghost var rest, u := s[i..], s[i..i + runeLen];
      ChunksStep(QEncoding, rest, cur);
      assert rest[..runeLen] == u && rest[runeLen..] == s[i + runeLen..];
      if currentLen + encLen > MAX_CONTENT_LEN {
        ghost var later := Chunks(QEncoding, s[i + runeLen..], u);
        BodyStep(QEncoding, charset, cur, later);
        Assoc(head, QText(cur), Seam(QEncoding, charset) + Body(QEncoding, charset, later));
        Assoc(out, Seam(QEncoding, charset), Body(QEncoding, charset, later));
        out := SplitWord(QEncoding, out, charset);
        currentLen := 0;
        head, cur := out, [];
        assert out + [] == out;
      }
      QTextAppend(cur, u);
      Assoc(head, QText(cur), QText(u));
      out := WriteQString(out, s[i..i + runeLen]);
      currentLen := currentLen + encLen;
      assert [] + u == u;
      cur := cur + u;
      i := i + runeLen;
    }
    ChunksStep(QEncoding, s[i..], cur);
    BodyStep(QEncoding, charset, cur, []);
    assert [cur] + [] == [cur];
  }

  /** WordEncoder.Encode. */
  method Encode(e: WordEncoder, charset: bytes, s: bytes) returns (out: bytes)
    ensures out == Encoded(e, charset, s)
  {
    hide Body, Chunks, IsUtf8, NeedsEncoding;
    var needs := CheckNeedsEncoding(s);
    if !needs {
      return s;
    }
    out := Open(e, charset);
    if e == BEncoding {
      out := BEncode(out, charset, s);
    } else {
      out := QEncode(out, charset, s);
    }
    out := out + CLOSE;
  }

  // ---- The decoder

  /** qDecode: fills a buffer as long as the text and returns the part it used. */
  method QDecode(s: bytes) returns (r: Option<bytes>)
    ensures r == QDecoded(s)
  {
    hide QDecoded;
    var dec := new byte[|s|];
    var n, i := 0, 0;
    assert s[0..] == s && dec[..0] == [];
    PrependNothing(QDecoded(s));
    while i < |s|
      invariant 0 <= n <= i <= |s|
      invariant QDecoded(s) == Prepend(dec[..n], QDecoded(s[i..]))
    {
      var c := s[i];
      ghost var done, t := dec[..n], s[i..];
      QDecodedStep(t);
      assert t[1..] == s[i + 1..];
      var b: byte;
      if c == UNDERSCORE {
        b := SPACE;
      } else if c == EQUALS {
        if i + 2 >= |s| {
          return None;
        }
        var h := HexByte(s[i + 1], s[i + 2]);
        if h == None {
          return None;
        }
        b := h.value;
        assert t[3..] == s[i + 3..];
        i := i + 2;
      } else if IsQLiteral(c) {
        b := c;
      } else {
        return None;
      }
      dec[n] := b;
      n := n + 1;
      i := i + 1;
      assert dec[..n] == done + [b];
      PrependTwice(done, [b], QDecoded(s[i..]));
    }
    QDecodedStep(s[i..]);
    assert dec[..n] + [] == dec[..n];
    r := Some(dec[..n]);
  }

  lemma QDecodedStep(t: bytes)
    ensures t == [] ==> QDecoded(t) == Some([])
    ensures t != [] && t[0] == UNDERSCORE ==> QDecoded(t) == Prepend([SPACE], QDecoded(t[1..]))
    ensures t != [] && t[0] == EQUALS && (|t| < 3 || HexByte(t[1], t[2]) == None) ==> QDecoded(t) == None
    ensures |t| >= 3 && t[0] == EQUALS && HexByte(t[1], t[2]).Some? ==>
              QDecoded(t) == Prepend([HexByte(t[1], t[2]).value], QDecoded(t[3..]))
    ensures t != [] && t[0] != UNDERSCORE && t[0] != EQUALS ==>
              QDecoded(t) == if IsQLiteral(t[0]) then Prepend([t[0]], QDecoded(t[1..])) else None
  {
  }

  /** decode. */
  method DecodeText(encoding: byte, text: bytes) returns (r: Option<bytes>)
    ensures r == DecodedText(encoding, text)
  {
    if encoding == 'B' as int || encoding == 'b' as int {
      r := Base64.Decode(text, Base64.STANDARD);
    } else if encoding == 'Q' as int || encoding == 'q' as int {
      r := QDecode(text);
    } else {
      r := None;
    }
  }

  /** convert, appending to the text decoded so far. */
  method Convert(buf: bytes, charset: bytes, content: bytes, other: OtherCharsets) returns (r: Option<bytes>)
    ensures r == Prepend(buf, Converted(charset, content, other))
  {
    hide Runes, Fold, EncodeRune;
    var out := buf;
    if EqualFold(charset, UTF_8) {
      out := out + content;
    } else if EqualFold(charset, ISO_8859_1) {
      for k := 0 to |content|
        invariant out + Latin1(content[k..]) == buf + Latin1(content)
      {
        assert content[k..][1..] == content[k + 1..];
        Assoc(out, EncodeRune(content[k]), Latin1(content[k + 1..]));
        out := out + EncodeRune(content[k]);
      }
      assert out + [] == out;
    } else if EqualFold(charset, US_ASCII) {
      for k := 0 to |content|
        invariant out + Ascii(content[k..]) == buf + Ascii(content)
      {
        assert content[k..][1..] == content[k + 1..];
        ghost var piece := if content[k] >= 0x80 then REPLACEMENT else [content[k]];
        Assoc(out, piece, Ascii(content[k + 1..]));
        if content[k] >= 0x80 {
          out := out + REPLACEMENT;
        } else {
          out := out + [content[k]];
        }
      }
      assert out + [] == out;
    } else {
      var converted := other(charset, content);
      if converted == None {
        return None;
      }
      out := out + converted.value;
    }
    r := Some(out);
  }

  /** The search of DecodeHeader from the encoding letter on. */
  method TextAt(header: bytes, at: nat) returns (w: Option<(byte, bytes, nat)>)
    requires at <= |header|
    ensures w == ReadText(header[at..])
  {
    hide IndexOfPair;
    ghost var g := header[at..];
    var cur := at;
    if |header| < cur + 4 {
      return None;
    }
    var encoding := header[cur];
    cur := cur + 1;
    if header[cur] != QUESTION {
      return None;
    }
    cur := cur + 1;
    assert g[2..] == header[cur..];
    var j := IndexOfPair(header[cur..], QUESTION, EQUALS);
    if j == |header[cur..]| {
      return None;
    }
    assert g[2..2 + j] == header[cur..cur + j];
    w := Some((encoding, header[cur..cur + j], j + 4));
  }

  /** The search of DecodeHeader for the next encoded-word. */
  method NextOutline(header: bytes) returns (w: Option<Outline>)
    ensures w == FindWord(header)
  {
    hide IndexOf, IndexOfPair, ReadText;
    var start := IndexOfPair(header, EQUALS, QUESTION);
    if start == |header| {
      return None;
    }
    var cur := start + 2;
    var i := IndexOf(header[cur..], QUESTION);
    if i == |header[cur..]| {
      return None;
    }
    var charset := header[cur..cur + i];
    assert charset == header[cur..][..i];
    cur := cur + i + 1;
    assert header[start + 2..][i + 1..] == header[cur..];
    var rest := TextAt(header, cur);
    if rest == None {
      return None;
    }
    w := Some(Outline(start, charset, rest.value.0, rest.value.1, cur + rest.value.2));
  }

  /** DecodeHeader. */
  method DecodeHeader(text: bytes, other: OtherCharsets) returns (r: Option<bytes>)
    ensures r == Decoded(text, other)
  {
    hide Scan, FindWord, DecodedText, Converted, HasNonWhitespace, IndexOfPair;
    var header := text;
    var i := IndexOfPair(header, EQUALS, QUESTION);
    if i == |header| {
      return Some(header);
    }
    var buf := header[..i];
    header := header[i..];
    var betweenWords := false;
    while true
      invariant Decoded(text, other) == Prepend(buf, Scan(header, betweenWords, other))
      decreases |header|
    {
      ScanStep(header, betweenWords, other);
      var w := NextOutline(header);
      if w == None {
        break;
      }
      var start, end := w.value.start, w.value.end;
      var content := DecodeText(w.value.encoding, w.value.text);
      if content == None {
        betweenWords := false;
        PrependTwice(buf, header[..start + 2], Scan(header[start + 2..], false, other));
        buf := buf + header[..start + 2];
        header := header[start + 2..];
        continue;
      }
      var gap := [];
      if start > 0 && (!betweenWords || HasNonWhitespace(header[..start])) {
        gap := header[..start];
      }
      var converted := Convert([], w.value.charset, content.value, other);
      PrependNothing(Converted(w.value.charset, content.value, other));
      if converted == None {
        return None;
      }
      PrependTwice(buf, gap + converted.value, Scan(header[end..], true, other));
      buf := buf + (gap + converted.value);
      header := header[end..];
      betweenWords := true;
    }
    r := Some(buf + header);
  }

  lemma ScanStep(h: bytes, betweenWords: bool, other: OtherCharsets)
    ensures FindWord(h) == None ==> Scan(h, betweenWords, other) == Some(h)
    ensures FindWord(h).Some? ==>
              var w := FindWord(h).value;
              Scan(h, betweenWords, other) ==
              match DecodedText(w.encoding, w.text)
              case None => Prepend(h[..w.start + 2], Scan(h[w.start + 2..], false, other))
              case Some(content) =>
                var gap := if w.start > 0 && (!betweenWords || HasNonWhitespace(h[..w.start]))
                           then h[..w.start] else [];
                match Converted(w.charset, content, other)
                case None => None
                case Some(converted) => Prepend(gap + converted, Scan(h[w.end..], true, other))
  {
  }
}
