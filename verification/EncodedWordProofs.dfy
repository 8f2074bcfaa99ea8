/** What RFC 2047 promises of `EncodedWord.Encoded` and `EncodedWord.Decoded`. */
module EncodedWordProofs {
  import opened Bytes
  import opened Utf8
  import opened EncodedWord
  import Base64
  import Substrings

  // ---- One word

  /** A name that folds to ASCII letters other than k and s is itself ASCII of the same length. */
  lemma {:induction false} FoldedName(s: bytes, name: seq<int>)
    requires Fold(Runes(s)) == name
    requires forall i :: 0 <= i < |name| ==> 0x20 <= name[i] < 0x80 && name[i] != 0x6B && name[i] != 0x73
    requires QUESTION !in name
    ensures |s| == |name|
    ensures QUESTION !in s
  {
    if s != [] {
      var r, n := Rune(s), RuneLen(s);
      assert Runes(s)[1..] == Runes(s[n..]);
      assert FoldRune(r) == name[0];
      if s[0] >= 0x80 {
        HighRune(s);
        assert false;
      }
      assert n == 1 && r == s[0];
      FoldedName(s[1..], name[1..]);
      assert s == [s[0]] + s[1..];
    }
  }

  lemma HighRune(s: bytes)
    requires s != [] && s[0] >= 0x80
    ensures Rune(s) >= 0x80
  {
  }

  lemma Utf8Name(charset: bytes)
    requires IsUtf8(charset)
    ensures |charset| == 5 && QUESTION !in charset
  {
    hide Fold, Runes;
    FoldedName(charset, UTF_8);
  }

  lemma {:induction false} QTextHasNoQuestion(s: bytes)
    ensures QUESTION !in QText(s)
  {
    if s != [] {
      QTextHasNoQuestion(s[1..]);
    }
  }

  lemma TextHasNoQuestion(e: WordEncoder, chunk: bytes)
    ensures QUESTION !in Text(e, chunk)
  {
    hide QText, Base64.Encode;
    if e == BEncoding {
      Base64.EncodeShape(chunk, Base64.STANDARD);
    } else {
      QTextHasNoQuestion(chunk);
    }
  }

  lemma {:induction false} QRoundTrip(s: bytes)
    ensures QDecoded(QText(s)) == Some(s)
  {
    hide QDecoded, UpperHex;
    var t := QText(s);
    QDecodedStep(t);
    if s != [] {
      QRoundTrip(s[1..]);
      var rest := QText(s[1..]);
      assert [s[0]] + s[1..] == s;
      if s[0] == SPACE || IsQPlain(s[0]) {
        assert t[1..] == rest;
      } else {
        assert t[1] == UpperHex(s[0] / 16) && t[2] == UpperHex(s[0] % 16) && t[3..] == rest;
      }
    }
  }

  /** The text of a word decodes to its chunk. */
  lemma TextRoundTrip(e: WordEncoder, chunk: bytes)
    ensures DecodedText(e.Letter(), Text(e, chunk)) == Some(chunk)
  {
    hide QText, QDecoded, Base64.Encode, Base64.Decode;
    if e == BEncoding {
      Base64.DecodeEncode(chunk, Base64.STANDARD);
    } else {
      QRoundTrip(chunk);
    }
  }

  predicate HasNoWordStart(p: bytes) {
    forall i :: 0 <= i < |p| - 1 ==> p[i] != EQUALS || p[i + 1] != QUESTION
  }

  lemma IndexBehind(x: bytes, b: byte, y: bytes)
    requires b !in x
    ensures IndexOf(x + ([b] + y), b) == |x|
  {
    hide IndexOf;
    var h := x + ([b] + y);
    assert h[|x|] == b;
    assert forall i :: 0 <= i < |x| ==> h[i] == x[i];
  }

  lemma PairBehind(x: bytes, a: byte, b: byte, y: bytes)
    requires a != b
    requires forall i :: 0 <= i < |x| - 1 ==> x[i] != a || x[i + 1] != b
    ensures IndexOfPair(x + ([a, b] + y), a, b) == |x|
  {
    hide IndexOfPair;
    var h := x + ([a, b] + y);
    assert h[|x|] == a && h[|x| + 1] == b;
    assert forall i :: 0 <= i < |x| ==> h[i] == x[i];
  }

  lemma TextBehind(letter: byte, text: bytes, rest: bytes)
    requires QUESTION !in text
    ensures ReadText([letter, QUESTION] + (text + (CLOSE + rest))) == Some((letter, text, |text| + 4))
  {
    hide IndexOfPair;
    var tail := text + (CLOSE + rest);
    var g := [letter, QUESTION] + tail;
    PairBehind(text, QUESTION, EQUALS, rest);
    assert g[2..] == tail && g[2..2 + |text|] == text;
  }

  /** The outline of `p`, "=?", `charset`, "?" and a text that can be read. */
  lemma OutlineOf(p: bytes, charset: bytes, g: bytes)
    requires HasNoWordStart(p) && QUESTION !in charset && ReadText(g).Some?
    ensures FindWord(p + ([EQUALS, QUESTION] + (charset + ([QUESTION] + g))))
         == Some(Outline(|p|, charset, ReadText(g).value.0, ReadText(g).value.1,
                         |p| + 2 + |charset| + 1 + ReadText(g).value.2))
  {
    hide IndexOf, IndexOfPair, ReadText;
    var f := charset + ([QUESTION] + g);
    var h := p + ([EQUALS, QUESTION] + f);
    PairBehind(p, EQUALS, QUESTION, f);
    assert h == (p + [EQUALS, QUESTION]) + f;
    assert h[|p| + 2..] == f;
    IndexBehind(charset, QUESTION, g);
    assert f[|charset| + 1..] == g && f[..|charset|] == charset;
  }

  /** The scanner finds an encoded-word behind any text without "=?", and finds all of it. */
  lemma FindsWord(p: bytes, e: WordEncoder, charset: bytes, chunk: bytes, rest: bytes)
    requires HasNoWordStart(p) && QUESTION !in charset
    ensures FindWord(p + Word(e, charset, chunk) + rest)
         == Some(Outline(|p|, charset, e.Letter(), Text(e, chunk), |p| + |Word(e, charset, chunk)|))
  {
    hide FindWord, Text, ReadText;
    var text := Text(e, chunk);
    var g := [e.Letter(), QUESTION] + (text + (CLOSE + rest));
    TextHasNoQuestion(e, chunk);
    TextBehind(e.Letter(), text, rest);
    OutlineOf(p, charset, g);
    assert p + Word(e, charset, chunk) + rest == p + ([EQUALS, QUESTION] + (charset + ([QUESTION] + g)));
  }

  /** Spaces, tabs and line breaks. */
  predicate IsFolding(p: bytes) {
    forall i :: 0 <= i < |p| ==> p[i] in [0x20, 0x09, 0x0D, 0x0A]
  }

  lemma FoldingIff(p: bytes)
    ensures IsFolding(p) <==> !HasNonWhitespace(p)
    ensures IsFolding([])
  {
  }

  /**
   Section 6.2: an encoded-word is replaced by what it stands for; the text in front of it is kept, unless it
   is only white space between two encoded-words.
   */
  lemma ScanWord(p: bytes, between: bool, e: WordEncoder, charset: bytes, chunk: bytes, rest: bytes,
                 other: OtherCharsets)
    requires HasNoWordStart(p) && IsUtf8(charset)
    ensures Scan(p + Word(e, charset, chunk) + rest, between, other)
         == Prepend((if between && IsFolding(p) then [] else p) + chunk, Scan(rest, true, other))
  {
    hide Scan, FindWord, DecodedText, Fold, Runes, Text, HasNonWhitespace, IsFolding;
    FoldingIff(p);
    var h, w := p + Word(e, charset, chunk) + rest, Word(e, charset, chunk);
    Utf8Name(charset);
    FindsWord(p, e, charset, chunk, rest);
    TextRoundTrip(e, chunk);
    ScanStep(h, between, other);
    assert h[..|p|] == p && h[|p| + |w|..] == rest;
  }

  // ---- All words of a header

  lemma {:induction false} ScanWords(p: bytes, between: bool, e: WordEncoder, charset: bytes, chunks: seq<bytes>,
                                     other: OtherCharsets)
    requires chunks != [] && IsUtf8(charset)
    requires p == [] || (p == [SPACE] && between)
    ensures Scan(p + (Open(e, charset) + Body(e, charset, chunks) + CLOSE), between, other) == Some(Flatten(chunks))
    decreases |chunks|
  {
    hide Scan, Body, Text, IsUtf8, Word, Open, FindWord, HasNoWordStart, IsFolding;
    var first, later := chunks[0], chunks[1..];
    assert chunks == [first] + later;
    var rest := if later == [] then [] else [SPACE] + (Open(e, charset) + Body(e, charset, later) + CLOSE);
    WordsSplit(e, charset, first, later);
    Assoc(p, Word(e, charset, first), rest);
    GapIsDropped(p);
    ScanWord(p, between, e, charset, first, rest, other);
    FlattenFirst(first, later);
    if later == [] {
      ScanNothing(other);
    } else {
      ScanWords([SPACE], true, e, charset, later, other);
    }
  }

  /** The text of several words is the first word and, behind a space, the others. */
  lemma WordsSplit(e: WordEncoder, charset: bytes, first: bytes, later: seq<bytes>)
    ensures Open(e, charset) + Body(e, charset, [first] + later) + CLOSE
            == Word(e, charset, first)
               + if later == [] then [] else [SPACE] + (Open(e, charset) + Body(e, charset, later) + CLOSE)
  {
    hide Body, Text, Open;
    BodyStep(e, charset, first, later);
  }

  lemma GapIsDropped(p: bytes)
    requires p == [] || p == [SPACE]
    ensures HasNoWordStart(p) && (if p == [SPACE] && IsFolding(p) then [] else p) == []
  {
  }

  lemma FlattenFirst(first: bytes, later: seq<bytes>)
    ensures Flatten([first] + later) == first + Flatten(later)
    ensures [] + first == first && first + [] == first && Flatten([]) == []
  {
    assert ([first] + later)[1..] == later;
  }

  lemma ScanNothing(other: OtherCharsets)
    ensures Scan([], true, other) == Some([])
  {
    hide Scan;
    ScanStep([], true, other);
    assert FindWord([]) == None;
  }

  lemma ScanPlain(z: bytes, between: bool, other: OtherCharsets)
    requires HasNoWordStart(z)
    ensures Scan(z, between, other) == Some(z)
  {
    hide Scan, Behind;
    ScanStep(z, between, other);
    var i := IndexOfPair(z, EQUALS, QUESTION);
    assert i == |z|;
  }

  /**
   A header with two words: what stands between them is dropped exactly when it is white space, line breaks of a
   folded header included; what stands before and behind them is kept.
   */
  lemma TwoWords(a: bytes, p: bytes, z: bytes, e: WordEncoder, charset: bytes, c: bytes,
                 e': WordEncoder, charset': bytes, c': bytes, other: OtherCharsets)
    requires HasNoWordStart(a) && HasNoWordStart(p) && HasNoWordStart(z) && IsUtf8(charset) && IsUtf8(charset')
    ensures Decoded(a + Word(e, charset, c) + p + Word(e', charset', c') + z, other)
            == Some(a + c + (if forall i :: 0 <= i < |p| ==> p[i] in [0x20, 0x09, 0x0D, 0x0A] then [] else p) + c' + z)
  {
    hide Scan, IsUtf8, Text, HasNoWordStart;
    var w, w' := Word(e, charset, c), Word(e', charset', c');
    var behind := p + w' + z;
    var h := a + w + p + w' + z;
    var gap := if IsFolding(p) then [] else p;
    FoldingIff(p);
    WordStart(a, e, charset, c, p + w' + z);
    assert h == a + w + behind;
    assert w + behind == [] + w + behind;
    NoWordInEmpty();
    ScanWord([], false, e, charset, c, behind, other);
    ScanWord(p, true, e', charset', c', z, other);
    ScanPlain(z, true, other);
    assert Prepend(gap + c', Some(z)) == Some(gap + c' + z);
    assert a + (([] + c) + (gap + c' + z)) == a + c + gap + c' + z;
  }

  lemma NoWordInEmpty()
    ensures HasNoWordStart([])
  {
  }

  lemma WordStart(a: bytes, e: WordEncoder, charset: bytes, c: bytes, rest: bytes)
    requires HasNoWordStart(a)
    ensures var h := a + Word(e, charset, c) + rest;
            IndexOfPair(h, EQUALS, QUESTION) == |a| && h[..|a|] == a && h[|a|..] == Word(e, charset, c) + rest
  {
    hide IndexOfPair, Text;
    var tail := charset + [QUESTION, e.Letter(), QUESTION] + Text(e, c) + CLOSE + rest;
    PairBehind(a, EQUALS, QUESTION, tail);
    assert a + Word(e, charset, c) + rest == a + ([EQUALS, QUESTION] + tail);
  }

  lemma {:induction false} ChunksFlatten(e: WordEncoder, s: bytes, cur: bytes)
    ensures Flatten(Chunks(e, s, cur)) == cur + s
    decreases |s|
  {
    hide Chunks, Cost, RuneLen;
    ChunksStep(e, s, cur);
    if s == [] {
      assert Flatten([cur]) == cur + [];
    } else {
      var n := RuneLen(s);
      assert s[..n] + s[n..] == s;
      if Cost(e, cur) + Cost(e, s[..n]) <= Limit(e) {
        ChunksFlatten(e, s[n..], cur + s[..n]);
        Assoc(cur, s[..n], s[n..]);
      } else {
        ChunksFlatten(e, s[n..], s[..n]);
      }
    }
  }

  /** However many words the encoder needs, in B and in Q, decoding the header gives the text back. */
  lemma HeaderRoundTrip(e: WordEncoder, charset: bytes, s: bytes, other: OtherCharsets)
    requires IsUtf8(charset) && NeedsEncoding(s)
    ensures Decoded(Encoded(e, charset, s), other) == Some(s)
  {
    hide Scan, Body, Chunks, IsUtf8, NeedsEncoding, IndexOfPair;
    var chunks := Chunks(e, s, []);
    var h := Encoded(e, charset, s);
    assert h == Open(e, charset) + Body(e, charset, chunks) + CLOSE;
    assert h[0] == EQUALS && h[1] == QUESTION;
    assert IndexOfPair(h, EQUALS, QUESTION) == 0;
    assert [] + h == h && h[0..] == h && h[..0] == [];
    ScanWords([], false, e, charset, chunks, other);
    ChunksFlatten(e, s, []);
    assert [] + s == s;
  }

  // ---- The shape of what is written

  /** Complete encoded-words with one space between neighbours. */
  function SpacedWords(e: WordEncoder, charset: bytes, chunks: seq<bytes>): bytes {
    if chunks == [] then []
    else if |chunks| == 1 then Word(e, charset, chunks[0])
    else Word(e, charset, chunks[0]) + ([0x20] + SpacedWords(e, charset, chunks[1..]))
  }

  lemma {:induction false} EncodedIsSpacedWords(e: WordEncoder, charset: bytes, chunks: seq<bytes>)
    requires chunks != []
    ensures Open(e, charset) + Body(e, charset, chunks) + CLOSE == SpacedWords(e, charset, chunks)
  {
    hide Body, Text, Open, Word;
    var first, later := chunks[0], chunks[1..];
    assert chunks == [first] + later;
    WordsSplit(e, charset, first, later);
    assert Word(e, charset, first) + [] == Word(e, charset, first);
    if later != [] {
      EncodedIsSpacedWords(e, charset, later);
    }
  }

  lemma CostAppend(e: WordEncoder, s: bytes, t: bytes)
    ensures Cost(e, s + t) == Cost(e, s) + Cost(e, t)
  {
    hide QText;
    QTextAppend(s, t);
  }

  lemma RuneFits(e: WordEncoder, s: bytes)
    requires s != []
    ensures Cost(e, s[..RuneLen(s)]) <= 12
  {
    hide QText;
    RuneCost(s);
  }

  lemma {:induction false} ChunksFit(e: WordEncoder, s: bytes, cur: bytes)
    requires Cost(e, cur) <= Limit(e)
    ensures forall c :: c in Chunks(e, s, cur) ==> Cost(e, c) <= Limit(e)
    decreases |s|
  {
    hide Chunks, RuneLen, Cost;
    ChunksStep(e, s, cur);
    if s != [] {
      var n := RuneLen(s);
      RuneFits(e, s);
      CostAppend(e, cur, s[..n]);
      if Cost(e, cur) + Cost(e, s[..n]) <= Limit(e) {
        ChunksFit(e, s[n..], cur + s[..n]);
      } else {
        ChunksFit(e, s[n..], s[..n]);
      }
    }
  }

  lemma WordLength(e: WordEncoder, charset: bytes, chunk: bytes)
    requires IsUtf8(charset) && Cost(e, chunk) <= Limit(e)
    ensures |Word(e, charset, chunk)| <= 75
  {
    hide QText, Base64.Encode, Fold, Runes;
    Utf8Name(charset);
    if e == BEncoding {
      Base64.EncodeShape(chunk, Base64.STANDARD);
      assert |chunk| <= 45;
    }
  }

  /** Section 2: in UTF-8 the output is a list of encoded-words of at most 75 bytes, separated by spaces. */
  lemma EncodedWordsAreShort(e: WordEncoder, charset: bytes, s: bytes)
    requires IsUtf8(charset) && NeedsEncoding(s)
    ensures Encoded(e, charset, s) == SpacedWords(e, charset, Chunks(e, s, []))
    ensures forall c :: c in Chunks(e, s, []) ==> |Word(e, charset, c)| <= 75
  {
    hide Body, Chunks, IsUtf8, NeedsEncoding, Cost, Word, SpacedWords;
    EncodedIsSpacedWords(e, charset, Chunks(e, s, []));
    CostOfNothing(e);
    ChunksFit(e, s, []);
    forall c | c in Chunks(e, s, [])
      ensures |Word(e, charset, c)| <= 75
    {
      WordLength(e, charset, c);
    }
  }

  lemma CostOfNothing(e: WordEncoder)
    ensures Cost(e, []) == 0
  {
  }

  // ---- Words are as long as they may be

  /** A chunk with the first rune of the next one costs too much. */
  predicate Full(e: WordEncoder, c: bytes, next: bytes) {
    next != [] && Cost(e, c + next[..RuneLen(next)]) > Limit(e)
  }

  lemma {:induction false} ChunkFront(e: WordEncoder, s: bytes, cur: bytes)
    ensures cur <= Chunks(e, s, cur)[0] <= cur + s
    decreases |s|
  {
    hide Chunks, Cost, RuneLen;
    ChunksStep(e, s, cur);
    if s == [] {
      assert cur + s == cur;
    } else {
      var n := RuneLen(s);
      if Cost(e, cur) + Cost(e, s[..n]) <= Limit(e) {
        ChunkFront(e, s[n..], cur + s[..n]);
        assert cur + s[..n] + s[n..] == cur + s;
      }
    }
  }

  /** The next chunk begins with the rune that did not fit. */
  lemma NextChunk(e: WordEncoder, s: bytes, cur: bytes)
    requires s != [] && Cost(e, cur) + Cost(e, s[..RuneLen(s)]) > Limit(e)
    ensures Full(e, cur, Chunks(e, s[RuneLen(s)..], s[..RuneLen(s)])[0])
  {
    hide Chunks, Cost, RuneLen;
    var n := RuneLen(s);
    var next := Chunks(e, s[n..], s[..n])[0];
    ChunkFront(e, s[n..], s[..n]);
    assert s[..n] + s[n..] == s;
    assert next + s[|next|..] == s;
    SameFront(next, s[|next|..]);
    assert next[..n] == s[..n];
    CostAppend(e, cur, s[..n]);
  }

  lemma {:induction false} ChunksFull(e: WordEncoder, s: bytes, cur: bytes)
    ensures var chunks := Chunks(e, s, cur); forall i :: 0 <= i < |chunks| - 1 ==> Full(e, chunks[i], chunks[i + 1])
    decreases |s|
  {
    hide Chunks, Cost, RuneLen, Full;
    ChunksStep(e, s, cur);
    if s != [] {
      var n := RuneLen(s);
      if Cost(e, cur) + Cost(e, s[..n]) <= Limit(e) {
        ChunksFull(e, s[n..], cur + s[..n]);
      } else {
        ChunksFull(e, s[n..], s[..n]);
        NextChunk(e, s, cur);
      }
    }
  }

  lemma WordTooLong(e: WordEncoder, charset: bytes, chunk: bytes)
    requires IsUtf8(charset) && Cost(e, chunk) > Limit(e)
    ensures |Word(e, charset, chunk)| > 75
  {
    hide QText, Base64.Encode, Fold, Runes;
    Utf8Name(charset);
    if e == BEncoding {
      Base64.EncodeShape(chunk, Base64.STANDARD);
      assert |chunk| >= 46;
    }
  }

  /** A word for the chunk and the first rune of the next one would be longer than 75 bytes. */
  predicate TooLong(e: WordEncoder, charset: bytes, chunk: bytes, next: bytes) {
    next != [] && |Word(e, charset, chunk + next[..RuneLen(next)])| > 75
  }

  /** No word could hold the first rune of the next one too. */
  lemma WordsAreFull(e: WordEncoder, charset: bytes, s: bytes)
    requires IsUtf8(charset)
    ensures var chunks := Chunks(e, s, []);
            forall i :: 0 <= i < |chunks| - 1 ==> TooLong(e, charset, chunks[i], chunks[i + 1])
  {
    hide Chunks, Cost, Word, IsUtf8, RuneLen, Full;
    ChunksFull(e, s, []);
    var chunks := Chunks(e, s, []);
    forall i | 0 <= i < |chunks| - 1
      ensures TooLong(e, charset, chunks[i], chunks[i + 1])
    {
      FullIsTooLong(e, charset, chunks[i], chunks[i + 1]);
    }
  }

  lemma FullIsTooLong(e: WordEncoder, charset: bytes, chunk: bytes, next: bytes)
    requires IsUtf8(charset) && Full(e, chunk, next)
    ensures TooLong(e, charset, chunk, next)
  {
    hide Cost, Word, IsUtf8, RuneLen;
    WordTooLong(e, charset, chunk + next[..RuneLen(next)]);
  }

  // ---- No rune is split

  function RunesOf(chunks: seq<bytes>): seq<scalar> {
    if chunks == [] then [] else Runes(chunks[0]) + RunesOf(chunks[1..])
  }

  lemma RunesStep(s: bytes)
    ensures Runes(s) == if s == [] then [] else [Rune(s)] + Runes(s[RuneLen(s)..])
  {
  }

  /** A piece that ends at a rune boundary of the whole is read the same way on its own. */
  lemma {:induction false} RunesSplitAtBoundary(s: bytes, t: bytes)
    requires IsBoundary(s + t, |s|)
    ensures Runes(s + t) == Runes(s) + Runes(t)
  {
    hide Runes, Rune, RuneLen;
    RunesStep(s);
    if s == [] {
      assert s + t == t;
    } else {
      var n := RuneLen(s + t);
      RunesStep(s + t);
      SameFront(s, t);
      assert (s + t)[n..] == s[n..] + t;
      RunesSplitAtBoundary(s[n..], t);
      assert Runes(s + t) == [Rune(s)] + (Runes(s[n..]) + Runes(t));
    }
  }

  lemma SameFront(s: bytes, t: bytes)
    requires s != [] && RuneLen(s + t) <= |s|
    ensures SeqLen(s) == SeqLen(s + t) && RuneLen(s) == RuneLen(s + t) && Rune(s) == Rune(s + t)
  {
    if SeqLen(s) > 0 {
      SeqLenPrefix(s, t);
    } else if SeqLen(s + t) > 0 {
      assert forall i :: 0 <= i < |s| ==> (s + t)[i] == s[i];
      assert false;
    }
  }

  lemma {:induction false} BoundaryExtends(s: bytes, k: nat)
    requires k < |s| && IsBoundary(s, k)
    ensures k + RuneLen(s[k..]) <= |s| && IsBoundary(s, k + RuneLen(s[k..]))
  {
    hide RuneLen;
    if k == 0 {
      assert s[0..] == s;
    } else {
      var n := RuneLen(s);
      assert s[n..][k - n..] == s[k..];
      BoundaryExtends(s[n..], k - n);
    }
  }

  lemma {:induction false} ChunksRunes(e: WordEncoder, s: bytes, cur: bytes)
    requires IsBoundary(cur + s, |cur|)
    ensures RunesOf(Chunks(e, s, cur)) == Runes(cur + s)
    decreases |s|
  {
    hide Chunks, RuneLen, Cost, Runes, IsBoundary, RunesOf;
    ChunksStep(e, s, cur);
    if s == [] {
      assert cur + s == cur;
      RunesOfStep(cur, []);
      assert [cur] + [] == [cur];
    } else {
      var n := RuneLen(s);
      var u, rest := s[..n], s[n..];
      assert u + rest == s;
      if Cost(e, cur) + Cost(e, u) <= Limit(e) {
        assert (cur + s)[|cur|..] == s;
        BoundaryExtends(cur + s, |cur|);
        Assoc(cur, u, rest);
        ChunksRunes(e, rest, cur + u);
      } else {
        BoundaryAfterRune(s);
        ChunksRunes(e, rest, u);
        RunesOfStep(cur, Chunks(e, rest, u));
        RunesSplitAtBoundary(cur, s);
      }
    }
  }

  lemma RunesOfStep(first: bytes, rest: seq<bytes>)
    ensures RunesOf([first] + rest) == if rest == [] then Runes(first) else Runes(first) + RunesOf(rest)
  {
    assert ([first] + rest)[1..] == rest;
  }

  lemma BoundaryAfterRune(s: bytes)
    requires s != []
    ensures IsBoundary(s, RuneLen(s))
  {
    assert IsBoundary(s[RuneLen(s)..], 0);
  }

  lemma {:induction false} ChunksValid(e: WordEncoder, s: bytes, cur: bytes)
    requires Valid(s) && Valid(cur)
    ensures forall c :: c in Chunks(e, s, cur) ==> Valid(c)
    decreases |s|
  {
    hide Chunks, Cost, Valid, SeqLen;
    ChunksStep(e, s, cur);
    if s != [] {
      var n := RuneLen(s);
      ValidStep(s);
      FirstRuneValid(s);
      if Cost(e, cur) + Cost(e, s[..n]) <= Limit(e) {
        ValidAppend(cur, s[..n]);
        ChunksValid(e, s[n..], cur + s[..n]);
      } else {
        ChunksValid(e, s[n..], s[..n]);
      }
    }
  }

  /**
   Section 5, rule 3: no rune is split between words. Read word by word, the text has the same runes as read
   whole, for any bytes; and the words of valid UTF-8 are valid UTF-8 each.
   */
  lemma WordsKeepRunes(e: WordEncoder, s: bytes)
    ensures RunesOf(Chunks(e, s, [])) == Runes(s)
    ensures Valid(s) ==> forall c :: c in Chunks(e, s, []) ==> Valid(c)
  {
    hide Chunks, Runes, RunesOf;
    assert [] + s == s;
    ChunksRunes(e, s, []);
    if Valid(s) {
      ChunksValid(e, s, []);
    }
  }

  // ---- Headers that are not encoded

  lemma {:induction false} NeedsEncodingIff(s: bytes)
    ensures NeedsEncoding(s) <==> exists i :: 0 <= i < |s| && (s[i] < 0x20 || s[i] > 0x7E) && s[i] != 0x09
  {
    if s != [] {
      var n := RuneLen(s);
      if s[0] >= 0x80 {
        HighRune(s);
        assert NeedsEncodingRune(s[0]);
      } else {
        NeedsEncodingIff(s[1..]);
        assert forall i :: 0 <= i < |s| - 1 ==> s[1..][i] == s[i + 1];
        assert s[0] == Rune(s);
        if exists i :: 0 <= i < |s| && NeedsEncodingRune(s[i]) {
          var i :| 0 <= i < |s| && NeedsEncodingRune(s[i]);
          if i > 0 {
            assert s[1..][i - 1] == s[i];
          }
        }
      }
    }
  }

  /** The decoder would replace something in `h`: somewhere it finds an encoded-word whose text decodes. */
  predicate HasWord(h: bytes)
    decreases |h|
  {
    match FindWord(h)
    case None => false
    case Some(w) => DecodedText(w.encoding, w.text).Some? || HasWord(h[w.start + 2..])
  }

  lemma HasWordStep(h: bytes)
    ensures HasWord(h) <==> FindWord(h).Some?
                            && (DecodedText(FindWord(h).value.encoding, FindWord(h).value.text).Some?
                                || HasWord(h[FindWord(h).value.start + 2..]))
  {
  }

  lemma {:induction false} ScanKeepsPlain(h: bytes, between: bool, other: OtherCharsets)
    requires !HasWord(h)
    ensures Scan(h, between, other) == Some(h)
    decreases |h|
  {
    hide Scan, FindWord, DecodedText, HasWord;
    ScanStep(h, between, other);
    HasWordStep(h);
    if FindWord(h).Some? {
      var k := FindWord(h).value.start + 2;
      ScanKeepsPlain(h[k..], false, other);
      assert h[..k] + h[k..] == h;
    }
  }

  predicate AllAscii(s: bytes) {
    forall i :: 0 <= i < |s| ==> s[i] < 0x80
  }

  lemma OutlineLength(h: bytes)
    requires FindWord(h).Some?
    ensures FindWord(h).value.end >= FindWord(h).value.start + |FindWord(h).value.text| + 7
  {
    hide IndexOf, IndexOfPair;
  }

  lemma {:induction false} QDecodedLength(t: bytes)
    requires QDecoded(t).Some?
    ensures |QDecoded(t).value| <= |t|
    decreases |t|
  {
    hide QDecoded;
    QDecodedStep(t);
    if t != [] {
      QDecodedLength(if t[0] == EQUALS then t[3..] else t[1..]);
    }
  }

  lemma DecodedTextLength(encoding: byte, text: bytes)
    requires DecodedText(encoding, text).Some?
    ensures |DecodedText(encoding, text).value| <= |text|
  {
    hide QDecoded, Base64.Decode;
    if encoding == 'B' as int || encoding == 'b' as int {
      Base64.DecodedLength(text, Base64.STANDARD);
    } else {
      QDecodedLength(text);
    }
  }

  lemma {:induction false} Latin1OfAscii(content: bytes)
    requires AllAscii(Latin1(content))
    ensures Latin1(content) == content
  {
    if content != [] {
      var first, rest := EncodeRune(content[0]), Latin1(content[1..]);
      var t := first + rest;
      assert t[0] == first[0];
      assert forall i :: 0 <= i < |rest| ==> t[|first| + i] == rest[i];
      Latin1OfAscii(content[1..]);
    }
  }

  lemma {:induction false} AsciiOfAscii(content: bytes)
    requires AllAscii(Ascii(content))
    ensures Ascii(content) == content
  {
    if content != [] {
      var first, rest := if content[0] >= 0x80 then REPLACEMENT else [content[0]], Ascii(content[1..]);
      var t := first + rest;
      assert t[0] == first[0];
      assert forall i :: 0 <= i < |rest| ==> t[|first| + i] == rest[i];
      AsciiOfAscii(content[1..]);
    }
  }

  /** Converting to ASCII text never makes it longer, as in GBK and GB18030, where ASCII stands for itself. */
  ghost predicate KeepsAsciiShort(other: OtherCharsets) {
    forall c, t :: other(c, t).Some? && AllAscii(other(c, t).value) ==> |other(c, t).value| <= |t|
  }

  /** A word that stands for ASCII text is longer than that text. */
  lemma {:induction false} ScanShrinks(h: bytes, between: bool, other: OtherCharsets)
    requires KeepsAsciiShort(other)
    requires Scan(h, between, other).Some? && AllAscii(Scan(h, between, other).value)
    ensures |Scan(h, between, other).value| <= |h|
    ensures HasWord(h) ==> |Scan(h, between, other).value| < |h|
    decreases |h|
  {
    hide Scan, FindWord, DecodedText, HasWord, Fold, Runes, Latin1, Ascii, HasNonWhitespace;
    ScanStep(h, between, other);
    HasWordStep(h);
    if FindWord(h).Some? {
      var w := FindWord(h).value;
      var out := Scan(h, between, other).value;
      OutlineLength(h);
      if DecodedText(w.encoding, w.text) == None {
        var rest := Scan(h[w.start + 2..], false, other).value;
        assert forall i :: 0 <= i < |rest| ==> out[w.start + 2 + i] == rest[i];
        ScanShrinks(h[w.start + 2..], false, other);
      } else {
        DecodedTextLength(w.encoding, w.text);
        var content := DecodedText(w.encoding, w.text).value;
        var converted := Converted(w.charset, content, other).value;
        var rest := Scan(h[w.end..], true, other).value;
        var gap := |out| - |rest| - |converted|;
        assert 0 <= gap <= w.start;
        assert forall i :: 0 <= i < |converted| ==> out[gap + i] == converted[i];
        assert forall i :: 0 <= i < |rest| ==> out[gap + |converted| + i] == rest[i];
        ScanShrinks(h[w.end..], true, other);
        if EqualFold(w.charset, ISO_8859_1) && !EqualFold(w.charset, UTF_8) {
          Latin1OfAscii(content);
        } else if EqualFold(w.charset, US_ASCII) && !EqualFold(w.charset, UTF_8) {
          AsciiOfAscii(content);
        }
      }
    }
  }

  /** Text that is left unencoded survives exactly when it does not itself contain a decodable encoded-word. */
  lemma PlainRoundTripIff(e: WordEncoder, charset: bytes, s: bytes, other: OtherCharsets)
    requires !NeedsEncoding(s)
    requires KeepsAsciiShort(other)
    ensures Decoded(Encoded(e, charset, s), other) == Some(s) <==> !HasWord(s)
  {
    hide Scan, HasWord, IndexOfPair, Encoded, Decoded;
    PlainSteps(e, charset, s, other);
    var i := IndexOfPair(s, EQUALS, QUESTION);
    HasWordFrom(s);
    if i < |s| {
      if !HasWord(s) {
        ScanKeepsPlain(s[i..], false, other);
      } else if Scan(s[i..], false, other) == Some(s[i..]) {
        ScanShrinks(s[i..], false, other);
      }
    }
  }

  /** Unencoded text is plain ASCII and is scanned from its first "=?". */
  lemma PlainSteps(e: WordEncoder, charset: bytes, s: bytes, other: OtherCharsets)
    requires !NeedsEncoding(s)
    ensures Encoded(e, charset, s) == s && AllAscii(s)
    ensures var i := IndexOfPair(s, EQUALS, QUESTION);
            if i == |s| then Decoded(s, other) == Some(s)
            else AllAscii(s[i..]) && (Decoded(s, other) == Some(s) <==> Scan(s[i..], false, other) == Some(s[i..]))
  {
    hide Scan, NeedsEncoding, IndexOfPair, Body, Chunks;
    NeedsEncodingIff(s);
    var i := IndexOfPair(s, EQUALS, QUESTION);
    if i < |s| {
      var rest := Scan(s[i..], false, other);
      assert s[..i] + s[i..] == s;
      assert rest.Some? ==> (s[..i] + rest.value)[i..] == rest.value;
    }
  }

  /** The first "=?" decides where the search starts. */
  lemma FindWordFrom(s: bytes)
    ensures var i := IndexOfPair(s, EQUALS, QUESTION);
            if i == |s| then FindWord(s) == None
            else FindWord(s) == Moved(i, Behind(s[i + 2..])) && FindWord(s[i..]) == Moved(0, Behind(s[i + 2..]))
  {
    hide Behind, Moved, IndexOfPair;
    var i := IndexOfPair(s, EQUALS, QUESTION);
    if i < |s| {
      var t := s[i..];
      assert t[0] == EQUALS && t[1] == QUESTION;
      assert IndexOfPair(t, EQUALS, QUESTION) == 0;
      assert t[2..] == s[i + 2..];
    }
  }

  lemma HasWordFrom(s: bytes)
    ensures var i := IndexOfPair(s, EQUALS, QUESTION);
            if i == |s| then !HasWord(s) else HasWord(s) == HasWord(s[i..])
  {
    hide HasWord, DecodedText, FindWord, IndexOfPair, Behind;
    var i := IndexOfPair(s, EQUALS, QUESTION);
    HasWordStep(s);
    FindWordFrom(s);
    if i < |s| {
      HasWordStep(s[i..]);
      assert s[i..][2..] == s[i + 2..];
    }
  }

  /** The round trip over every text: what the encoder touches comes back, and so does all that holds no word. */
  lemma RoundTripIff(e: WordEncoder, charset: bytes, s: bytes, other: OtherCharsets)
    requires IsUtf8(charset)
    requires KeepsAsciiShort(other)
    ensures Decoded(Encoded(e, charset, s), other) == Some(s) <==> NeedsEncoding(s) || !HasWord(s)
  {
    hide NeedsEncoding, HasWord, IsUtf8, Encoded, Decoded;
    if NeedsEncoding(s) {
      HeaderRoundTrip(e, charset, s, other);
    } else {
      PlainRoundTripIff(e, charset, s, other);
    }
  }

  // ---- Headers that cannot be decoded

  /** The scan comes to a word it can read in a charset nobody converts. */
  predicate Unconvertible(h: bytes, other: OtherCharsets)
    decreases |h|
  {
    match FindWord(h)
    case None => false
    case Some(w) =>
      match DecodedText(w.encoding, w.text)
      case None => Unconvertible(h[w.start + 2..], other)
      case Some(content) => Foreign(w.charset, content, other) || Unconvertible(h[w.end..], other)
  }

  /** Neither UTF-8 nor ISO-8859-1 nor US-ASCII, and no other conversion. */
  predicate Foreign(charset: bytes, content: bytes, other: OtherCharsets) {
    !EqualFold(charset, UTF_8) && !EqualFold(charset, ISO_8859_1) && !EqualFold(charset, US_ASCII)
    && other(charset, content) == None
  }

  lemma UnconvertibleStep(h: bytes, other: OtherCharsets)
    ensures Unconvertible(h, other)
            <==> FindWord(h).Some?
                 && var w := FindWord(h).value;
                    match DecodedText(w.encoding, w.text)
                    case None => Unconvertible(h[w.start + 2..], other)
                    case Some(content) => Foreign(w.charset, content, other) || Unconvertible(h[w.end..], other)
  {
  }

  lemma ForeignIff(charset: bytes, content: bytes, other: OtherCharsets)
    ensures Foreign(charset, content, other) <==> Converted(charset, content, other) == None
  {
    hide Fold, Runes, Latin1, Ascii;
  }

  lemma {:induction false} ScanFailsIff(h: bytes, between: bool, other: OtherCharsets)
    ensures Scan(h, between, other) == None <==> Unconvertible(h, other)
    decreases |h|
  {
    hide Scan, FindWord, DecodedText, Converted, Foreign, Unconvertible, HasNonWhitespace;
    ScanStep(h, between, other);
    UnconvertibleStep(h, other);
    if FindWord(h).Some? {
      var w := FindWord(h).value;
      match DecodedText(w.encoding, w.text)
      case None => ScanFailsIff(h[w.start + 2..], false, other);
      case Some(content) =>
        ForeignIff(w.charset, content, other);
        ScanFailsIff(h[w.end..], true, other);
    }
  }

  lemma UnconvertibleFrom(h: bytes, other: OtherCharsets)
    ensures var i := IndexOfPair(h, EQUALS, QUESTION);
            if i == |h| then !Unconvertible(h, other) else Unconvertible(h, other) == Unconvertible(h[i..], other)
  {
    hide Unconvertible, DecodedText, FindWord, IndexOfPair, Behind, Foreign;
    var i := IndexOfPair(h, EQUALS, QUESTION);
    UnconvertibleStep(h, other);
    FindWordFrom(h);
    if i < |h| {
      UnconvertibleStep(h[i..], other);
      assert h[i..][2..] == h[i + 2..];
      if FindWord(h).Some? {
        assert h[i..][FindWord(h[i..]).value.end..] == h[FindWord(h).value.end..];
      }
    }
  }

  /** A header is an error exactly when it holds a readable word in a charset that nothing converts. */
  lemma DecodeFailsIff(header: bytes, other: OtherCharsets)
    ensures Decoded(header, other) == None <==> Unconvertible(header, other)
  {
    hide Scan, Unconvertible, IndexOfPair;
    var i := IndexOfPair(header, EQUALS, QUESTION);
    UnconvertibleFrom(header, other);
    if i < |header| {
      ScanFailsIff(header[i..], false, other);
    }
  }

  /** "=?x?q?a?=" is one, unless the charset "x" is converted. */
  lemma UnknownCharset(other: OtherCharsets)
    ensures Decoded([EQUALS, QUESTION, 0x78, QUESTION, 0x71, QUESTION, 0x61, QUESTION, EQUALS], other) == None
            <==> other([0x78], [0x61]) == None
  {
    hide FindWord, DecodedText, Unconvertible, Decoded, Foreign;
    var h: bytes := [EQUALS, QUESTION, 0x78, QUESTION, 0x71, QUESTION, 0x61, QUESTION, EQUALS];
    assert [EQUALS, QUESTION] + [0x78] + [QUESTION, 0x71, QUESTION, 0x61, QUESTION, EQUALS] == h;
    SmallWord([0x78]);
    DecodeFailsIff(h, other);
    UnconvertibleStep(h, other);
    assert h[|h|..] == [];
    UnconvertibleStep([], other);
    NoWordInNothing();
    NamedX(other);
  }

  lemma NamedX(other: OtherCharsets)
    ensures Foreign([0x78], [0x61], other) <==> other([0x78], [0x61]) == None
  {
    var x: bytes := [0x78];
    assert x[1..] == [];
    assert Runes(x) == [0x78];
  }

  lemma NoWordInNothing()
    ensures FindWord([]) == None
  {
  }

  /** The word for "a" in Q. */
  lemma SmallWord(charset: bytes)
    requires QUESTION !in charset
    ensures var h := [EQUALS, QUESTION] + charset + [QUESTION, 0x71, QUESTION, 0x61, QUESTION, EQUALS];
            FindWord(h).Some? && var w := FindWord(h).value;
            w.charset == charset && w.end == |h| && DecodedText(w.encoding, w.text) == Some([0x61])
  {
    hide FindWord, DecodedText;
    var h := [EQUALS, QUESTION] + charset + [QUESTION, 0x71, QUESTION, 0x61, QUESTION, EQUALS];
    assert Text(QEncoding, [0x61]) == [0x61];
    assert [] + Word(QEncoding, charset, [0x61]) + [] == h;
    FindsWord([], QEncoding, charset, [0x61], []);
    TextRoundTrip(QEncoding, [0x61]);
  }

  /** "=?utf-8?q?a?=" is left unencoded and holds a word: text that decoding changes. */
  lemma ChangedPlainText()
    ensures var s := [EQUALS, QUESTION, 0x75, 0x74, 0x66, 0x2D, 0x38, QUESTION, 0x71, QUESTION, 0x61, QUESTION, EQUALS];
            !NeedsEncoding(s) && HasWord(s)
  {
    hide FindWord, DecodedText, HasWord, NeedsEncoding;
    var charset: bytes := [0x75, 0x74, 0x66, 0x2D, 0x38];
    var s := [EQUALS, QUESTION, 0x75, 0x74, 0x66, 0x2D, 0x38, QUESTION, 0x71, QUESTION, 0x61, QUESTION, EQUALS];
    assert [EQUALS, QUESTION] + charset + [QUESTION, 0x71, QUESTION, 0x61, QUESTION, EQUALS] == s;
    SmallWord(charset);
    HasWordStep(s);
    NeedsEncodingIff(s);
  }

  // ---- In the characters of RFC 2047

  /** What a word looks like. */
  lemma WordIs(charset: bytes, chunk: bytes)
    ensures Word(BEncoding, charset, chunk)
            == Substrings.Ascii("=?") + charset + Substrings.Ascii("?b?") + Base64.Encode(chunk, 0x2F)
               + Substrings.Ascii("?=")
    ensures Word(QEncoding, charset, chunk)
            == Substrings.Ascii("=?") + charset + Substrings.Ascii("?q?") + QText(chunk) + Substrings.Ascii("?=")
  {
    hide QText, Base64.Encode;
  }

  /** The hexadecimal digits, in both cases. */
  function Digit(v: int, upper: bool): bytes
    requires 0 <= v < 16
  {
    Substrings.Ascii(if upper then ["0123456789ABCDEF"[v]] else ["0123456789abcdef"[v]])
  }

  lemma DigitIs(v: int, upper: bool)
    requires 0 <= v < 16
    ensures |Digit(v, upper)| == 1 && FromHex(Digit(v, upper)[0]) == Some(v) && Digit(v, true)[0] == UpperHex(v)
  {
  }

  /** Section 4.2: "_" for a space, visible characters as they are except "=", "?" and "_", and "=XX" for the rest. */
  lemma QWrites(b: byte)
    ensures QText([b]) == if b == 0x20 then Substrings.Ascii("_")
                          else if 0x21 <= b <= 0x7E && [b] != Substrings.Ascii("=") && [b] != Substrings.Ascii("?")
                                  && [b] != Substrings.Ascii("_") then [b]
                          else Substrings.Ascii("=") + Digit(b / 16, true) + Digit(b % 16, true)
  {
    hide UpperHex, Digit;
    DigitIs(b / 16, true);
    DigitIs(b % 16, true);
    assert [b][1..] == [];
    assert QText([b]) == QByte(b) + [];
  }

  /** What Q decoding makes of the first character. */
  lemma QReads(c: byte, rest: bytes)
    requires [c] != Substrings.Ascii("=")
    ensures QDecoded([c] + rest)
            == if [c] == Substrings.Ascii("_") then Prepend([0x20], QDecoded(rest))
               else if 0x20 <= c <= 0x7E || c in [0x09, 0x0A, 0x0D] then Prepend([c], QDecoded(rest))
               else None
  {
    hide QDecoded;
    assert ([c] + rest)[1..] == rest;
    QDecodedStep([c] + rest);
  }

  /** "=" takes two hexadecimal digits of either case, and nothing else. */
  lemma QReadsHex(v: int, w: int, upper: bool, upper': bool, rest: bytes)
    requires 0 <= v < 16 && 0 <= w < 16
    ensures QDecoded(Substrings.Ascii("=") + Digit(v, upper) + Digit(w, upper') + rest)
            == Prepend([16 * v + w], QDecoded(rest))
  {
    hide QDecoded, Digit, FromHex;
    DigitIs(v, upper);
    DigitIs(w, upper');
    var t := Substrings.Ascii("=") + Digit(v, upper) + Digit(w, upper') + rest;
    assert t[0] == 0x3D && t[1] == Digit(v, upper)[0] && t[2] == Digit(w, upper')[0] && t[3..] == rest;
    QDecodedStep(t);
  }

  predicate IsHex(b: byte) { exists v, upper :: 0 <= v < 16 && Digit(v, upper) == [b] }

  lemma HexIff(b: byte)
    ensures IsHex(b) <==> FromHex(b).Some?
  {
    if FromHex(b).Some? {
      var v := FromHex(b).value;
      assert Digit(v, true) == [b] || Digit(v, false) == [b];
    }
    forall v, upper | 0 <= v < 16 && Digit(v, upper) == [b]
      ensures FromHex(b).Some?
    {
      DigitIs(v, upper);
    }
  }

  lemma QReadsNoHex(a: byte, b: byte, rest: bytes)
    requires !IsHex(a) || !IsHex(b)
    ensures QDecoded(Substrings.Ascii("=") + [a, b] + rest) == None
  {
    hide QDecoded, FromHex, IsHex;
    HexIff(a);
    HexIff(b);
    var t := Substrings.Ascii("=") + [a, b] + rest;
    assert t[0] == 0x3D && t[1] == a && t[2] == b;
    QDecodedStep(t);
  }

  /** The letter between the question marks, in either case. */
  lemma LetterDecides(letter: byte, text: bytes)
    ensures DecodedText(letter, text)
            == if [letter] == Substrings.Ascii("B") || [letter] == Substrings.Ascii("b") then Base64.Decode(text, 0x2F)
               else if [letter] == Substrings.Ascii("Q") || [letter] == Substrings.Ascii("q") then QDecoded(text)
               else None
  {
    hide QDecoded, Base64.Decode;
    assert Substrings.Ascii("B") == [0x42] && Substrings.Ascii("b") == [0x62];
    assert Substrings.Ascii("Q") == [0x51] && Substrings.Ascii("q") == [0x71];
  }

  /** ASCII letters in lower case. */
  function LowerCase(s: bytes): bytes {
    seq(|s|, i requires 0 <= i < |s| => if 0x41 <= s[i] <= 0x5A then s[i] + 32 else s[i])
  }

  lemma {:induction false} FoldIsLowerCase(s: bytes)
    requires AllAscii(s)
    ensures Fold(Runes(s)) == LowerCase(s)
  {
    if s != [] {
      FoldIsLowerCase(s[1..]);
      assert Runes(s) == [s[0]] + Runes(s[1..]);
      assert Runes(s)[1..] == Runes(s[1..]);
      assert LowerCase(s) == LowerCase([s[0]]) + LowerCase(s[1..]);
    }
  }

  /** The charsets the decoder knows, whatever the case of their names. */
  lemma KnownCharsets(charset: bytes, content: bytes, other: OtherCharsets)
    requires AllAscii(charset)
    ensures IsUtf8(charset) <==> LowerCase(charset) == Substrings.Ascii("utf-8")
    ensures Converted(charset, content, other)
            == if LowerCase(charset) == Substrings.Ascii("utf-8") then Some(content)
               else if LowerCase(charset) == Substrings.Ascii("iso-8859-1") then Some(Latin1(content))
               else if LowerCase(charset) == Substrings.Ascii("us-ascii") then Some(Ascii(content))
               else other(charset, content)
  {
    hide Fold, Runes, Latin1, Ascii, LowerCase;
    FoldIsLowerCase(charset);
    assert UTF_8 == Substrings.Ascii("utf-8");
    assert ISO_8859_1 == Substrings.Ascii("iso-8859-1");
    assert US_ASCII == Substrings.Ascii("us-ascii");
  }

  /** In ISO-8859-1 a byte is its own code point. */
  lemma {:induction false} Latin1Runes(content: bytes)
    ensures |Runes(Latin1(content))| == |content|
    ensures forall i :: 0 <= i < |content| ==> Runes(Latin1(content))[i] == content[i]
  {
    if content != [] {
      var rest := Latin1(content[1..]);
      Latin1Runes(content[1..]);
      EncodeThenDecode(content[0], rest);
      var s := EncodeRune(content[0]) + rest;
      assert s[|EncodeRune(content[0])|..] == rest;
      assert Runes(s) == [content[0]] + Runes(rest);
    }
  }

  /** In US-ASCII every byte from 0x80 on is undecodable. */
  lemma {:induction false} AsciiRunes(content: bytes)
    ensures |Runes(Ascii(content))| == |content|
    ensures forall i :: 0 <= i < |content| ==>
              Runes(Ascii(content))[i] == if content[i] < 0x80 then content[i] else 0xFFFD
  {
    if content != [] {
      var rest := Ascii(content[1..]);
      var r: scalar := if content[0] < 0x80 then content[0] else 0xFFFD;
      AsciiRunes(content[1..]);
      EncodeThenDecode(r, rest);
      var s := EncodeRune(r) + rest;
      assert EncodeRune(r) == if content[0] >= 0x80 then REPLACEMENT else [content[0]];
      assert s[|EncodeRune(r)|..] == rest;
      assert Runes(s) == [r] + Runes(rest);
    }
  }
}
