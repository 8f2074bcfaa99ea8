/** The string operations of Go's strings, sort and unicode/utf8 packages that bound an SMTP reply line. */
module Strings {
  import opened Bytes
  import opened Utf8

  // ---- sort.Strings on distinct strings

  /** Go's `<` on strings: byte by byte, a proper prefix first. */
  predicate Less(a: bytes, b: bytes) {
    b != [] && (a == [] || a[0] < b[0] || (a[0] == b[0] && Less(a[1..], b[1..])))
  }

  lemma {:induction false} LessTrichotomy(a: bytes, b: bytes)
    ensures Less(a, b) || a == b || Less(b, a)
    ensures !(Less(a, b) && Less(b, a))
    ensures Less(a, b) ==> a != b
  {
    if a != [] && b != [] && a[0] == b[0] {
      LessTrichotomy(a[1..], b[1..]);
      assert a == [a[0]] + a[1..] && b == [b[0]] + b[1..];
    }
  }

  lemma {:induction false} LessTransitive(a: bytes, b: bytes, c: bytes)
    requires Less(a, b) && Less(b, c)
    ensures Less(a, c)
  {
    if a != [] && a[0] == b[0] == c[0] {
      LessTransitive(a[1..], b[1..], c[1..]);
    }
  }

  /** The order of strings: a proper prefix first, else by the first byte that differs. */
  lemma {:induction false} LessIff(a: bytes, b: bytes)
    ensures Less(a, b) <==> a < b || exists k :: 0 <= k < |a| && k < |b| && a[..k] == b[..k] && a[k] < b[k]
  {
    if a != [] && b != [] {
      var p, q := a[1..], b[1..];
      assert a == [a[0]] + p && b == [b[0]] + q;
      if a[0] == b[0] {
        LessIff(p, q);
        if k :| 0 <= k < |p| && k < |q| && p[..k] == q[..k] && p[k] < q[k] {
          assert a[..k + 1] == [a[0]] + p[..k] && b[..k + 1] == [b[0]] + q[..k];
          assert a[k + 1] < b[k + 1];
        }
        if k :| 0 <= k < |a| && k < |b| && a[..k] == b[..k] && a[k] < b[k] {
          assert a[..k][1..] == p[..k - 1] && b[..k][1..] == q[..k - 1];
          assert p[k - 1] < q[k - 1];
        }
      } else if a[0] < b[0] {
        assert a[..0] == b[..0];
      } else {
        assert forall k :: 0 < k < |a| && k < |b| ==> a[..k][0] != b[..k][0];
      }
    }
  }

  predicate Sorted(s: seq<bytes>) {
    forall i, j :: 0 <= i < j < |s| ==> Less(s[i], s[j])
  }

  function Elements(s: seq<bytes>): set<bytes> {
    set x | x in s
  }

  function Insert(x: bytes, s: seq<bytes>): seq<bytes> {
    if s == [] || Less(x, s[0]) then [x] + s else [s[0]] + Insert(x, s[1..])
  }

  function Sort(s: seq<bytes>): seq<bytes> {
    if s == [] then [] else Insert(s[0], Sort(s[1..]))
  }

  lemma {:induction false} InsertElements(x: bytes, s: seq<bytes>)
    ensures forall y :: y in Insert(x, s) <==> y == x || y in s
  {
    if s != [] && !Less(x, s[0]) {
      InsertElements(x, s[1..]);
      assert s == [s[0]] + s[1..];
    }
  }

  lemma {:induction false} InsertSorted(x: bytes, s: seq<bytes>)
    requires Sorted(s) && x !in s
    ensures Sorted(Insert(x, s))
  {
    hide Less;
    if s != [] {
      LessTrichotomy(x, s[0]);
      if Less(x, s[0]) {
        forall j | 0 < j < |s|
          ensures Less(x, s[j])
        {
          LessTransitive(x, s[0], s[j]);
        }
      } else {
        InsertSorted(x, s[1..]);
        InsertElements(x, s[1..]);
        var t := Insert(x, s[1..]);
        forall j | 0 <= j < |t|
          ensures Less(s[0], t[j])
        {
          assert t[j] in t;
        }
      }
    }
  }

  lemma {:induction false} SortSorts(s: seq<bytes>)
    requires forall i, j :: 0 <= i < j < |s| ==> s[i] != s[j]
    ensures Sorted(Sort(s))
    ensures Elements(Sort(s)) == Elements(s)
  {
    hide Insert;
    if s != [] {
      SortSorts(s[1..]);
      assert s == [s[0]] + s[1..];
      assert forall y :: y in Sort(s[1..]) <==> y in Elements(Sort(s[1..]));
      assert forall y :: y in s[1..] <==> y in Elements(s[1..]);
      InsertSorted(s[0], Sort(s[1..]));
      InsertElements(s[0], Sort(s[1..]));
    }
  }

  /** There is one sorted list of a set of strings, so sorting erases the order the strings came in. */
  lemma {:induction false} SortedUnique(s: seq<bytes>, t: seq<bytes>)
    requires Sorted(s) && Sorted(t) && Elements(s) == Elements(t)
    ensures s == t
  {
    hide Less;
    EmptyElements(s);
    EmptyElements(t);
    if s != [] {
      assert s[0] in Elements(t);
      var j :| 0 <= j < |t| && t[j] == s[0];
      assert t[0] in Elements(s);
      var i :| 0 <= i < |s| && s[i] == t[0];
      LessTrichotomy(s[0], t[0]);
      assert s[0] == t[0];
      TailElements(s);
      TailElements(t);
      SortedUnique(s[1..], t[1..]);
      assert s == [s[0]] + s[1..] && t == [t[0]] + t[1..];
    }
  }

  lemma EmptyElements(s: seq<bytes>)
    ensures Elements(s) == {} <==> s == []
  {
    if s != [] {
      assert s[0] in Elements(s);
    }
  }

  lemma TailElements(s: seq<bytes>)
    requires s != [] && Sorted(s)
    ensures Elements(s[1..]) == Elements(s) - {s[0]}
  {
    forall k | 0 < k < |s|
      ensures s[k] != s[0]
    {
      LessTrichotomy(s[0], s[k]);
    }
    assert s == [s[0]] + s[1..];
  }

  // ---- strings.Fields and strings.Join

  /** unicode.IsSpace. */
  predicate IsSpace(r: int) {
    9 <= r <= 13 || r == 0x20 || r == 0x85 || r == 0xA0 || r == 0x1680 || 0x2000 <= r <= 0x200A
    || r == 0x2028 || r == 0x2029 || r == 0x202F || r == 0x205F || r == 0x3000
  }

  /** The code points with the White_Space property of Unicode. */
  lemma WhiteSpace(r: int)
    ensures IsSpace(r)
            <==> r in [0x09, 0x0A, 0x0B, 0x0C, 0x0D, 0x20, 0x85, 0xA0, 0x1680, 0x2000, 0x2001, 0x2002, 0x2003, 0x2004,
                       0x2005, 0x2006, 0x2007, 0x2008, 0x2009, 0x200A, 0x2028, 0x2029, 0x202F, 0x205F, 0x3000]
  {
  }

  /** The fields of `s`, `cur` being the one under way. */
  function Fields(s: bytes, cur: bytes): seq<bytes>
    decreases |s|
  {
    var done := if cur == [] then [] else [cur];
    if s == [] then done
    else
      var n := RuneLen(s);
      if IsSpace(Rune(s)) then done + Fields(s[n..], []) else Fields(s[n..], cur + s[..n])
  }

  function Joined(parts: seq<bytes>, sep: bytes): bytes {
    if parts == [] then []
    else if |parts| == 1 then parts[0]
    else parts[0] + (sep + Joined(parts[1..], sep))
  }

  /** A word of visible ASCII. */
  predicate IsWord(w: bytes) {
    w != [] && forall i :: 0 <= i < |w| ==> 0x21 <= w[i] <= 0x7E
  }

  lemma {:induction false} FieldsOfWord(w: bytes, cur: bytes, rest: bytes)
    requires forall i :: 0 <= i < |w| ==> 0x21 <= w[i] <= 0x7E
    ensures Fields(w + rest, cur) == Fields(rest, cur + w)
  {
    hide Fields;
    if w == [] {
      assert w + rest == rest && cur + w == cur;
    } else {
      FieldsStep(w + rest, cur);
      assert (w + rest)[1..] == w[1..] + rest && (w + rest)[..1] == [w[0]];
      FieldsOfWord(w[1..], cur + [w[0]], rest);
      assert cur + [w[0]] + w[1..] == cur + w;
    }
  }

  /** Words with a space between them are the fields of the text. */
  lemma {:induction false} FieldsOfWords(words: seq<bytes>)
    requires forall i :: 0 <= i < |words| ==> IsWord(words[i])
    ensures Fields(Joined(words, [0x20]), []) == words
  {
    hide Fields, Joined;
    if words == [] {
      JoinedStep(words, [0x20]);
      FieldsStep([], []);
    } else {
      var w, more := words[0], words[1..];
      JoinedStep(words, [0x20]);
      FieldsOfWords(more);
      assert [] + w == w && w + [] == w;
      if more == [] {
        FieldsOfWord(w, [], []);
        FieldsStep([], w);
      } else {
        var rest := [0x20] + Joined(more, [0x20]);
        FieldsOfWord(w, [], rest);
        FieldsStep(rest, w);
        assert rest[1..] == Joined(more, [0x20]);
        assert words == [w] + more;
      }
    }
  }

  lemma JoinedStep(parts: seq<bytes>, sep: bytes)
    ensures parts == [] ==> Joined(parts, sep) == []
    ensures |parts| == 1 ==> Joined(parts, sep) == parts[0]
    ensures |parts| > 1 ==> Joined(parts, sep) == parts[0] + (sep + Joined(parts[1..], sep))
  {
  }

  /** White space in front is no field. */
  lemma SpaceInFront(b: byte, s: bytes)
    requires b == 0x20 || 9 <= b <= 13
    ensures Fields([b] + s, []) == Fields(s, [])
  {
    assert ([b] + s)[1..] == s;
  }

  /** No carriage return and no line feed. */
  predicate OneLine(s: bytes) {
    forall i :: 0 <= i < |s| ==> s[i] != 13 && s[i] != 10
  }

  lemma RuneOneLine(s: bytes)
    requires s != [] && !IsSpace(Rune(s))
    ensures OneLine(s[..RuneLen(s)])
  {
    if SeqLen(s) > 0 && s[0] >= 0x80 {
      MultiByteIsHigh(s);
    }
  }

  lemma FieldsStep(s: bytes, cur: bytes)
    ensures s == [] ==> Fields(s, cur) == if cur == [] then [] else [cur]
    ensures s != [] ==>
              Fields(s, cur) ==
              if IsSpace(Rune(s)) then (if cur == [] then [] else [cur]) + Fields(s[RuneLen(s)..], [])
              else Fields(s[RuneLen(s)..], cur + s[..RuneLen(s)])
  {
  }

  lemma {:induction false} FieldsOneLine(s: bytes, cur: bytes)
    requires OneLine(cur)
    ensures forall f :: f in Fields(s, cur) ==> OneLine(f)
    decreases |s|
  {
    hide Fields, RuneLen, Rune, IsSpace;
    FieldsStep(s, cur);
    if s != [] {
      var n := RuneLen(s);
      if IsSpace(Rune(s)) {
        FieldsOneLine(s[n..], []);
      } else {
        RuneOneLine(s);
        FieldsOneLine(s[n..], cur + s[..n]);
      }
    }
  }

  lemma {:induction false} FieldsValid(s: bytes, cur: bytes)
    requires Valid(s) && Valid(cur)
    ensures forall f :: f in Fields(s, cur) ==> Valid(f)
    decreases |s|
  {
    hide Fields, SeqLen, Rune, IsSpace, Valid;
    FieldsStep(s, cur);
    if s != [] {
      var n := RuneLen(s);
      ValidStep(s);
      if IsSpace(Rune(s)) {
        NothingValid();
        FieldsValid(s[n..], []);
      } else {
        FirstRuneValid(s);
        ValidAppend(cur, s[..n]);
        FieldsValid(s[n..], cur + s[..n]);
      }
    }
  }

  lemma OneLineAppend(s: bytes, t: bytes)
    requires OneLine(s) && OneLine(t)
    ensures OneLine(s + t)
  {
  }

  lemma {:induction false} JoinedOneLine(parts: seq<bytes>, sep: bytes)
    requires OneLine(sep) && forall p :: p in parts ==> OneLine(p)
    ensures OneLine(Joined(parts, sep))
  {
    if parts != [] {
      assert parts[0] in parts;
      JoinedOneLine(parts[1..], sep);
      if |parts| > 1 {
        OneLineAppend(sep, Joined(parts[1..], sep));
        OneLineAppend(parts[0], sep + Joined(parts[1..], sep));
      }
    }
  }

  lemma {:induction false} JoinedValid(parts: seq<bytes>, sep: bytes)
    requires Valid(sep) && forall p :: p in parts ==> Valid(p)
    ensures Valid(Joined(parts, sep))
  {
    hide Valid;
    if parts == [] {
      NothingValid();
    } else if |parts| > 1 {
      JoinedValid(parts[1..], sep);
      ValidAppend(sep, Joined(parts[1..], sep));
      ValidAppend(parts[0], sep + Joined(parts[1..], sep));
    }
  }

  // ---- utf8.DecodeLastRune

  /** Where DecodeLastRune starts reading: the nearest byte, at most three back, that is not a continuation. */
  function BackTo(s: bytes, start: nat, lim: nat): (k: nat)
    requires lim <= start < |s|
    ensures lim <= k <= start
    decreases start
  {
    if !IsContinuation(s[start]) || start == lim then start else BackTo(s, start - 1, lim)
  }

  /** The size DecodeLastRune reports. */
  function LastRuneLen(s: bytes): (n: nat)
    requires s != []
    ensures 1 <= n <= 4 && n <= |s|
  {
    var end := |s|;
    if s[end - 1] < 0x80 || end == 1 then 1
    else
      var lim := if end < 4 then 0 else end - 4;
      var start := BackTo(s, end - 2, lim);
      if start + RuneLen(s[start..]) == end then RuneLen(s[start..]) else 1
  }

  /** The place of the last rune, found from the front. */
  function LastStart(s: bytes): (k: nat)
    requires s != []
    ensures k < |s|
    decreases |s|
  {
    if RuneLen(s) == |s| then 0 else RuneLen(s) + LastStart(s[RuneLen(s)..])
  }

  lemma {:induction false} LastStartValid(s: bytes)
    requires Valid(s) && s != []
    ensures Valid(s[..LastStart(s)]) && SeqLen(s[LastStart(s)..]) == |s| - LastStart(s)
    decreases |s|
  {
    hide Valid, SeqLen;
    ValidStep(s);
    var n, k := SeqLen(s), LastStart(s);
    if n == |s| {
      assert s[0..] == s && s[..0] == [];
      NothingValid();
    } else {
      var t := s[n..];
      LastStartValid(t);
      FirstRuneValid(s);
      ValidAppend(s[..n], t[..k - n]);
      assert s[..n] + t[..k - n] == s[..k] && t[k - n..] == s[k..];
    }
  }

  /** The bytes of one multi-byte encoding: a lead, then continuations only. */
  lemma OneEncoding(u: bytes)
    requires SeqLen(u) == |u| && |u| >= 2
    ensures !IsContinuation(u[0])
    ensures forall i :: 1 <= i < |u| ==> IsContinuation(u[i])
  {
  }

  lemma {:induction false} BackToLead(s: bytes, start: nat, lim: nat, k: nat)
    requires lim <= k <= start < |s| && !IsContinuation(s[k])
    requires forall i :: k < i <= start ==> IsContinuation(s[i])
    ensures BackTo(s, start, lim) == k
    decreases start
  {
    if start > k {
      BackToLead(s, start - 1, lim, k);
    }
  }

  /** On valid text DecodeLastRune finds the last rune, so removing it leaves valid text. */
  lemma LastRuneOfValid(s: bytes)
    requires Valid(s) && s != []
    ensures LastRuneLen(s) == |s| - LastStart(s)
    ensures Valid(s[..|s| - LastRuneLen(s)])
  {
    hide Valid, LastStart, BackTo, SeqLen, RuneLen;
    var k, end := LastStart(s), |s|;
    var u := s[k..];
    LastStartValid(s);
    if |u| == 1 {
      assert u[0] == s[end - 1];
      SingleIsAscii(u);
    } else {
      OneEncoding(u);
      assert forall i :: 0 <= i < |u| ==> u[i] == s[k + i];
      assert IsContinuation(s[end - 1]);
      var lim := if end < 4 then 0 else end - 4;
      BackToLead(s, end - 2, lim, k);
      WholeRune(u);
    }
  }

  /**
   On any text DecodeLastRune finds the well-formed encoding of more than one byte that the text ends with, or else
   the last byte.
   */
  lemma LastRuneIs(s: bytes, m: nat)
    requires s != [] && 2 <= m <= 4 && m <= |s|
    ensures LastRuneLen(s) == m <==> SeqLen(s[|s| - m..]) == m
  {
    hide BackTo, SeqLen, RuneLen;
    if SeqLen(s[|s| - m..]) == m {
      EndsWith(s, m);
    } else if LastRuneLen(s) == m {
      WholeOrNot(s[|s| - m..]);
    }
  }

  lemma WholeOrNot(u: bytes)
    requires |u| >= 2 && RuneLen(u) == |u|
    ensures SeqLen(u) == |u|
  {
  }

  lemma EndsWith(s: bytes, m: nat)
    requires 2 <= m <= 4 && m <= |s| && SeqLen(s[|s| - m..]) == m
    ensures LastRuneLen(s) == m
  {
    hide BackTo, SeqLen, RuneLen;
    var k, end := |s| - m, |s|;
    var u := s[k..];
    OneEncoding(u);
    assert forall i :: 0 <= i < |u| ==> u[i] == s[k + i];
    assert IsContinuation(s[end - 1]);
    var lim := if end < 4 then 0 else end - 4;
    BackToLead(s, end - 2, lim, k);
    WholeRune(u);
  }

  lemma WholeRune(u: bytes)
    requires SeqLen(u) == |u| && u != []
    ensures RuneLen(u) == |u|
  {
  }

  lemma SingleIsAscii(u: bytes)
    requires |u| == 1 && SeqLen(u) == 1
    ensures u[0] < 0x80
  {
  }
}
