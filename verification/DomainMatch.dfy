/** The name a delivery asks a mail host to prove by its certificate, chosen among the names the certificate lists. */
module DomainMatch {
  import opened Bytes
  import opened Substrings

  const DOT: byte := 0x2E
  const STAR: bytes := [0x2A]
  /** "smtp" */
  const SMTP: bytes := [115, 109, 116, 112]

  // ---- What a name with a wildcard stands for

  /** The label `i` places from the right. */
  function FromRight(labels: seq<bytes>, i: nat): bytes
    requires i < |labels|
  {
    labels[|labels| - 1 - i]
  }

  /** At least as many labels as the domain; right-aligned labels equal or "*"; any further labels "*". */
  predicate Accepts(name: seq<bytes>, domain: seq<bytes>) {
    |name| >= |domain|
    && forall i :: 0 <= i < |name| ==>
                     FromRight(name, i) == STAR || (i < |domain| && FromRight(name, i) == FromRight(domain, i))
  }

  predicate HasStar(name: bytes) { Includes(name, STAR) }

  predicate Hit(name: bytes, domain: bytes) {
    name == domain || (HasStar(name) && Accepts(Split(name, DOT), Split(domain, DOT)))
  }

  /** strings.ReplaceAll(s, "*.", ""). */
  function WithoutStarDot(s: bytes): bytes {
    if |s| < 2 then s
    else if s[0] == 0x2A && s[1] == DOT then WithoutStarDot(s[2..])
    else [s[0]] + WithoutStarDot(s[1..])
  }

  /** The last name that contains "smtp". */
  function LastSmtp(names: seq<bytes>): (r: Option<bytes>)
    ensures r.Some? ==> r.value in names && Includes(r.value, SMTP)
    ensures r == None ==> forall n :: n in names ==> !Includes(n, SMTP)
  {
    if names == [] then None
    else
      var last := names[|names| - 1];
      if Includes(last, SMTP) then Some(last)
      else
        assert names == names[..|names| - 1] + [last];
        LastSmtp(names[..|names| - 1])
  }

  predicate AnyHit(names: seq<bytes>, domain: bytes) {
    exists i :: 0 <= i < |names| && Hit(names[i], domain)
  }

  /** The domain itself if some name stands for it, else a name that looks like a mail host, else the first. */
  function Chosen(domain: bytes, names: seq<bytes>): bytes {
    if names == [] || AnyHit(names, domain) then domain
    else WithoutStarDot(if LastSmtp(names).Some? then LastSmtp(names).value else names[0])
  }

  /** The two index loops over right-aligned labels. */
  method LabelsMatch(nameArg: seq<bytes>, domainArg: seq<bytes>) returns (matches: bool)
    ensures matches <==> Accepts(nameArg, domainArg)
  {
    matches := true;
    var i := 0;
    while i < |nameArg|
      invariant 0 <= i <= |nameArg|
      invariant matches ==> forall j :: 0 <= j < i ==>
                  FromRight(nameArg, j) == STAR
                  || (j < |domainArg| && FromRight(nameArg, j) == FromRight(domainArg, j))
      invariant !matches ==> !Accepts(nameArg, domainArg)
      decreases |nameArg| - i, if matches then 1 else 0
    {
      if FromRight(nameArg, i) == STAR {
        i := i + 1;
        continue;
      }
      if |domainArg| > i && FromRight(nameArg, i) == FromRight(domainArg, i) {
        i := i + 1;
        continue;
      }
      matches := false;
      break;
    }
    i := 0;
    while i < |domainArg|
      invariant 0 <= i <= |domainArg|
      invariant matches ==> i <= |nameArg|
      invariant matches ==> forall j :: 0 <= j < |nameArg| ==>
                  FromRight(nameArg, j) == STAR
                  || (j < |domainArg| && FromRight(nameArg, j) == FromRight(domainArg, j))
      invariant !matches ==> !Accepts(nameArg, domainArg)
    {
      if |nameArg| > i && FromRight(nameArg, i) == FromRight(domainArg, i) {
        i := i + 1;
        continue;
      }
      if |nameArg| > i && FromRight(nameArg, i) == STAR {
        i := i + 1;
        continue;
      }
      matches := false;
      break;
    }
  }

  /** domainMatch. */
  method DomainMatch(domain: bytes, dnsNames: seq<bytes>) returns (r: bytes)
    ensures r == Chosen(domain, dnsNames)
  {
    hide Includes, Accepts;
    if |dnsNames| == 0 {
      return domain;
    }
    var secondMatch: bytes := [];
    for k := 0 to |dnsNames|
      invariant forall j :: 0 <= j < k ==> !Hit(dnsNames[j], domain)
      invariant secondMatch == if LastSmtp(dnsNames[..k]).Some? then LastSmtp(dnsNames[..k]).value else []
    {
      var name := dnsNames[k];
      assert dnsNames[..k + 1][..k] == dnsNames[..k];
      if Includes(name, SMTP) {
        secondMatch := name;
      }
      if name == domain {
        return name;
      }
      if Includes(name, STAR) {
        var matches := LabelsMatch(Split(name, DOT), Split(domain, DOT));
        if matches {
          return domain;
        }
      }
    }
    assert dnsNames[..|dnsNames|] == dnsNames;
    if secondMatch != [] {
      return WithoutStarDot(secondMatch);
    }
    NothingHasNoSmtp();
    r := WithoutStarDot(dnsNames[0]);
  }

  lemma NothingHasNoSmtp()
    ensures !Includes([], SMTP)
  {
  }

  /** Behind a leading "*", the labels of `rest` are matched one by one. */
  lemma BehindStar(rest: seq<bytes>, domain: seq<bytes>)
    requires STAR !in rest
    ensures Accepts([STAR] + rest, domain)
            <==> |rest| <= |domain| <= |rest| + 1
                 && forall i :: 0 <= i < |rest| ==> FromRight(rest, i) == FromRight(domain, i)
  {
    var name := [STAR] + rest;
    assert FromRight(name, |rest|) == STAR;
    forall i | 0 <= i < |rest|
      ensures FromRight(name, i) == FromRight(rest, i) && FromRight(rest, i) != STAR
    {
      assert FromRight(rest, i) in rest;
    }
    assert rest != [] ==> FromRight(name, |rest| - 1) != STAR;
  }

  /** A leading "*" label stands for one label or for none. */
  lemma WildcardIff(rest: seq<bytes>, domain: seq<bytes>)
    requires STAR !in rest
    ensures Accepts([STAR] + rest, domain) <==> domain == rest || (domain != [] && domain[1..] == rest)
  {
    hide Accepts;
    BehindStar(rest, domain);
    if |rest| <= |domain| <= |rest| + 1 {
      var d := domain[|domain| - |rest|..];
      assert forall k :: 0 <= k < |rest| ==> FromRight(rest, |rest| - 1 - k) == rest[k];
      assert forall k :: 0 <= k < |rest| ==> FromRight(domain, |rest| - 1 - k) == d[k];
      assert d == rest <==> forall i :: 0 <= i < |rest| ==> FromRight(rest, i) == FromRight(domain, i);
    }
  }

  // ---- In the terms of the names

  lemma Spelling()
    ensures [DOT] == Ascii(".") && STAR == Ascii("*") && SMTP == Ascii("smtp")
  {
  }

  lemma {:induction false} OfParts(parts: seq<bytes>, sep: byte)
    requires parts != []
    ensures forall i :: 0 <= i < |parts| ==> forall b :: b in parts[i] ==> b in Rejoined(parts, sep)
  {
    if |parts| > 1 {
      OfParts(parts[1..], sep);
    }
  }

  /** "*." and a name stand for the name itself and for the name behind one more label, and for nothing else. */
  lemma WildcardName(rest: bytes, name: bytes, domain: bytes)
    requires 0x2A !in rest && name == Ascii("*.") + rest
    ensures Hit(name, domain)
            <==> domain == name || domain == rest
                 || exists first: bytes :: 0x2E !in first && domain == first + [0x2E] + rest
  {
    hide Accepts, Split, Rejoined;
    SplitJoins(rest, DOT);
    SplitJoins(domain, DOT);
    var labels, split := Split(rest, DOT), Split(domain, DOT);
    OfParts(labels, DOT);
    assert STAR[0] == 0x2A;
    assert STAR !in labels;
    assert name == STAR + [0x2E] + rest;
    SplitHead(STAR, DOT, rest);
    WildcardIff(labels, split);
    assert HasStar(name) by {
      assert name == [] + STAR + ([0x2E] + rest);
      IncludesIff(name, STAR);
    }
    if split[1..] == labels {
      RejoinedStep(split, DOT);
      assert domain == split[0] + [0x2E] + rest;
    }
    if first: bytes :| 0x2E !in first && domain == first + [0x2E] + rest {
      SplitHead(first, DOT, rest);
      assert split[1..] == labels;
    }
  }

  /** A name without "*" stands for itself. */
  lemma PlainName(name: bytes, domain: bytes)
    requires 0x2A !in name
    ensures Hit(name, domain) <==> domain == name
  {
    hide Accepts, Split;
    forall i | 0 <= i < |name|
      ensures !OccursAt(name, STAR, i)
    {
      assert name[i..i + 1][0] == name[i];
    }
  }

  lemma {:induction false} NoStarKept(s: bytes)
    requires 0x2A !in s
    ensures WithoutStarDot(s) == s
  {
    if |s| >= 2 {
      NoStarKept(s[1..]);
    }
  }

  /** Without a name for the domain: the last name with "smtp" in it, or else the first, without its leading "*.". */
  lemma OtherwiseChosen(domain: bytes, names: seq<bytes>, k: nat, rest: bytes)
    requires k < |names| && forall i :: 0 <= i < |names| ==> !Hit(names[i], domain)
    requires if Includes(names[k], Ascii("smtp")) then
               forall i :: k < i < |names| ==> !Includes(names[i], Ascii("smtp"))
             else k == 0 && forall i :: 0 <= i < |names| ==> !Includes(names[i], Ascii("smtp"))
    requires 0x2A !in rest && (names[k] == rest || names[k] == Ascii("*.") + rest)
    ensures Chosen(domain, names) == rest
  {
    hide Hit, Includes;
    Spelling();
    NoStarKept(rest);
    var name := names[k];
    if name != rest {
      assert |name| >= 2 && name[0] == 0x2A && name[1] == 0x2E && name[2..] == rest;
    }
    assert WithoutStarDot(name) == rest;
    LastIs(names, k);
  }

  lemma {:induction false} LastIs(names: seq<bytes>, k: nat)
    requires k < |names|
    requires if Includes(names[k], SMTP) then forall i :: k < i < |names| ==> !Includes(names[i], SMTP)
             else forall i :: 0 <= i < |names| ==> !Includes(names[i], SMTP)
    ensures LastSmtp(names) == if Includes(names[k], SMTP) then Some(names[k]) else None
    decreases |names|
  {
    hide Includes;
    if Includes(names[k], SMTP) && k < |names| - 1 {
      LastIs(names[..|names| - 1], k);
    }
  }
}
