/** The substring searches of Go's strings package. */
module Substrings {
  import opened Bytes

  /** An ASCII literal of the source as bytes. */
  function Ascii(s: string): bytes {
    seq(|s|, i requires 0 <= i < |s| => s[i] as int % 128)
  }

  predicate OccursAt(s: bytes, pattern: bytes, i: int) {
    0 <= i <= |s| - |pattern| && s[i..i + |pattern|] == pattern
  }

  /** strings.Contains. */
  predicate Includes(s: bytes, pattern: bytes) {
    exists i :: 0 <= i <= |s| - |pattern| && OccursAt(s, pattern, i)
  }

  /** strings.Split at one byte. */
  function Split(s: bytes, sep: byte): (parts: seq<bytes>)
    ensures parts != []
  {
    var k := IndexOf(s, sep);
    if k == |s| then [s] else [s[..k]] + Split(s[k + 1..], sep)
  }

  /** A string includes another exactly when it is the other between two strings. */
  lemma IncludesIff(s: bytes, pattern: bytes)
    ensures Includes(s, pattern) <==> exists a: bytes, b: bytes :: s == a + pattern + b
  {
    if i :| 0 <= i <= |s| - |pattern| && OccursAt(s, pattern, i) {
      assert s == s[..i] + pattern + s[i + |pattern|..];
    }
    if a: bytes, b: bytes :| s == a + pattern + b {
      assert OccursAt(s, pattern, |a|);
    }
  }

  /** The parts with the separator between them. */
  function Rejoined(parts: seq<bytes>, sep: byte): bytes {
    if parts == [] then [] else if |parts| == 1 then parts[0] else parts[0] + [sep] + Rejoined(parts[1..], sep)
  }

  lemma {:induction false} SplitJoins(s: bytes, sep: byte)
    ensures Rejoined(Split(s, sep), sep) == s && forall i :: 0 <= i < |Split(s, sep)| ==> sep !in Split(s, sep)[i]
  {
    var k := IndexOf(s, sep);
    if k < |s| {
      var rest := Split(s[k + 1..], sep);
      SplitJoins(s[k + 1..], sep);
      assert ([s[..k]] + rest)[1..] == rest;
      assert s == s[..k] + [sep] + s[k + 1..];
    }
  }

  /** Splitting gives the one list of parts without the separator that join to the whole. */
  lemma {:induction false} SplitIff(s: bytes, sep: byte, parts: seq<bytes>)
    ensures parts == Split(s, sep)
            <==> parts != [] && Rejoined(parts, sep) == s && forall i :: 0 <= i < |parts| ==> sep !in parts[i]
  {
    hide Rejoined;
    SplitJoins(s, sep);
    if parts != [] && Rejoined(parts, sep) == s && forall i :: 0 <= i < |parts| ==> sep !in parts[i] {
      FirstPart(s, sep, parts);
      if |parts| > 1 {
        SplitIff(s[IndexOf(s, sep) + 1..], sep, parts[1..]);
        assert parts == [parts[0]] + parts[1..];
      } else {
        assert s[..|s|] == s && parts == [parts[0]];
      }
    }
  }

  /** The first part, and the parts of what follows the separator. */
  lemma SplitHead(first: bytes, sep: byte, rest: bytes)
    requires sep !in first
    ensures Split(first + [sep] + rest, sep) == [first] + Split(rest, sep)
    ensures Split(first, sep) == [first]
  {
    hide Split, Rejoined;
    SplitJoins(rest, sep);
    var parts := [first] + Split(rest, sep);
    assert parts[1..] == Split(rest, sep);
    RejoinedStep(parts, sep);
    SplitIff(first + [sep] + rest, sep, parts);
    RejoinedStep([first], sep);
    SplitIff(first, sep, [first]);
  }

  lemma RejoinedStep(parts: seq<bytes>, sep: byte)
    ensures |parts| > 1 ==> Rejoined(parts, sep) == parts[0] + [sep] + Rejoined(parts[1..], sep)
    ensures |parts| == 1 ==> Rejoined(parts, sep) == parts[0]
  {
  }

  lemma FirstPart(s: bytes, sep: byte, parts: seq<bytes>)
    requires parts != [] && Rejoined(parts, sep) == s && forall i :: 0 <= i < |parts| ==> sep !in parts[i]
    ensures var k := IndexOf(s, sep);
            parts[0] == s[..k] && if |parts| == 1 then k == |s| else k < |s| && Rejoined(parts[1..], sep) == s[k + 1..]
  {
    var k := IndexOf(s, sep);
    if |parts| == 1 {
      assert sep !in s;
    } else {
      var n := |parts[0]|;
      assert s[n] == sep && s[..n] == parts[0];
      assert forall i :: 0 <= i < n ==> s[i] == parts[0][i];
      assert k == n;
    }
  }
}
