/** The SMTP reply a submitting client gets for the result of delivering its message downstream. */
module DeliveryReply {
  import opened Bytes
  import opened Utf8
  import opened Strings
  import opened ErrorTree
  import opened Substrings

  const MAX_MESSAGE_BYTES := 128

  const COLON_SPACE: bytes := [0x3A, 0x20]
  const SEMICOLON_SPACE: bytes := [0x3B, 0x20]
  const SPACE: bytes := [0x20]
  const DOTS: bytes := [0x2E, 0x2E, 0x2E]

  /** "Downstream delivery " */
  const DOWNSTREAM: bytes :=
    [68, 111, 119, 110, 115, 116, 114, 101, 97, 109, 32, 100, 101, 108, 105, 118, 101, 114, 121, 32]

  /** "permanently failed" */
  const PERMANENTLY: bytes :=
    [112, 101, 114, 109, 97, 110, 101, 110, 116, 108, 121, 32, 102, 97, 105, 108, 101, 100]

  /** "temporarily failed" */
  const TEMPORARILY: bytes :=
    [116, 101, 109, 112, 111, 114, 97, 114, 105, 108, 121, 32, 102, 97, 105, 108, 101, 100]

  const PERMANENT_PREFIX: bytes := DOWNSTREAM + PERMANENTLY
  const TEMPORARY_PREFIX: bytes := DOWNSTREAM + TEMPORARILY

  datatype Reply = Reply(code: int, enhanced: (int, int, int), message: bytes)

  /** What a delivery reports for each recipient domain; a nil entry is None. */
  type DomainErrors = map<bytes, Option<Error>>

  // ---- Classification

  /** isPermanentDeliveryError: the first protocol error decides, then the first SMTP error, then DNS. */
  predicate IsPermanentDeliveryError(e: Error) {
    if As(e, AsProtocol).Some? then Is5xx(As(e, AsProtocol).value.kind.code)
    else if As(e, AsSmtp).Some? then Is5xx(As(e, AsSmtp).value.kind.code)
    else As(e, AsDns).Some? && As(e, AsDns).value.kind.isNotFound
  }

  /** Every domain failed for good. */
  predicate AllPermanent(errors: DomainErrors) {
    errors != map[] && forall d :: d in errors ==> errors[d].Some? && IsPermanentDeliveryError(errors[d].value)
  }

  /** deliveryFailureCause: a temporary MX lookup failure hides a network failure of the fallback host. */
  function FailureCause(lookup: Option<Error>, fallback: Error): Error {
    if IsPermanentSmtpResponse(fallback) then fallback
    else if lookup == None || !IsTemporaryLookup(lookup.value) then fallback
    else if As(fallback, AsNet) == None then fallback
    else Wrap(FallbackText(lookup.value, fallback), lookup.value)
  }

  /** The text of temporaryMXFallbackError. */
  function FallbackText(lookup: Error, fallback: Error): bytes {
    Ascii("temporary MX lookup failed (") + lookup.text + Ascii("); fallback delivery failed: ") + fallback.text
  }

  predicate IsTemporaryLookup(e: Error) {
    As(e, AsDns).Some? && (As(e, AsDns).value.kind.isTimeout || As(e, AsDns).value.kind.isTemporary)
  }

  /** Wrapping with a type of its own never changes what errors.As finds. */
  lemma AsThroughWrap(text: bytes, e: Error, t: Target)
    ensures As(Wrap(text, e), t) == As(e, t)
  {
    assert AsAny([e], t) == match As(e, t) case Some(k) => Some(k) case None => AsAny([e][1..], t);
  }

  /**
   A lookup that failed for a while makes the outcome temporary, whatever the fallback host ran into below the
   SMTP level, NXDOMAIN included: only the lookup error is classified.
   */
  lemma MaskedFallback(lookup: Error, fallback: Error)
    requires IsTemporaryLookup(lookup) && As(fallback, AsNet).Some? && !IsPermanentSmtpResponse(fallback)
    ensures IsPermanentDeliveryError(FailureCause(Some(lookup), fallback)) <==> IsPermanentDeliveryError(lookup)
    ensures As(lookup, AsProtocol) == None && As(lookup, AsSmtp) == None && !As(lookup, AsDns).value.kind.isNotFound
            ==> !IsPermanentDeliveryError(FailureCause(Some(lookup), fallback))
  {
    hide As, FallbackText;
    var text := FallbackText(lookup, fallback);
    AsThroughWrap(text, lookup, AsProtocol);
    AsThroughWrap(text, lookup, AsSmtp);
    AsThroughWrap(text, lookup, AsDns);
  }

  /** A 5xx of the fallback host is always the cause that is reported. */
  lemma PermanentFallbackStands(lookup: Option<Error>, fallback: Error)
    requires IsPermanentSmtpResponse(fallback)
    ensures IsPermanentDeliveryError(FailureCause(lookup, fallback))
  {
  }

  /** Of bare errors a 5xx reply is permanent, and a name that does not exist, and nothing else. */
  lemma Classes(kind: Kind, text: bytes)
    ensures var e := Error(kind, text, []);
            (IsPermanentDeliveryError(e)
             <==> match kind
                  case ProtocolError(code) => 500 <= code <= 599
                  case SmtpError(code) => 500 <= code <= 599
                  case DnsError(isNotFound, _, _) => isNotFound
                  case _ => false)
  {
    var e := Error(kind, text, []);
    assert forall t :: As(e, t) == if Matches(kind, t) then Some(e) else None;
  }

  /** In an error joined of two bare ones a protocol error decides, else an SMTP error, whichever comes first. */
  lemma Precedence(a: Error, b: Error)
    requires a.inner == [] && b.inner == []
    ensures IsPermanentDeliveryError(Join(a, b))
            <==> IsPermanentDeliveryError(if a.kind.ProtocolError? then a else if b.kind.ProtocolError? then b
                                          else if a.kind.SmtpError? then a else if b.kind.SmtpError? then b
                                          else if a.kind.DnsError? then a else b)
  {
    assert forall t :: As(a, t) == if Matches(a.kind, t) then Some(a) else None;
    assert forall t :: As(b, t) == if Matches(b.kind, t) then Some(b) else None;
    assert forall t :: AsAny([a, b], t) == match As(a, t) case Some(k) => Some(k) case None => AsAny([a, b][1..], t);
    assert [a, b][1..] == [b];
    assert forall t :: AsAny([b], t) == match As(b, t) case Some(k) => Some(k) case None => AsAny([b][1..], t);
  }

  /**
   The cause that is recorded: the fallback's own error, unless the lookup failed for a while and the fallback then
   met a network error.
   */
  lemma CauseIs(isNotFound: bool, isTimeout: bool, isTemporary: bool, text: bytes, fallback: Error)
    requires fallback.inner == []
    ensures FailureCause(None, fallback) == fallback
    ensures var lookup := Error(DnsError(isNotFound, isTimeout, isTemporary), text, []);
            FailureCause(Some(lookup), fallback)
            == if (isTimeout || isTemporary) && (fallback.kind.NetError? || fallback.kind.DnsError?) then
                 Error(OtherError, Ascii("temporary MX lookup failed (") + text
                                   + Ascii("); fallback delivery failed: ") + fallback.text, [lookup])
               else fallback
  {
    hide Ascii;
    assert forall t :: As(fallback, t) == if Matches(fallback.kind, t) then Some(fallback) else None;
  }

  // ---- The message

  /** The details in the order of the sorted domains. */
  function Details(domains: seq<bytes>, errors: DomainErrors): seq<bytes>
    requires forall d :: d in domains ==> d in errors
  {
    if domains == [] then []
    else
      (match errors[domains[0]]
       case None => []
       case Some(e) => [domains[0] + COLON_SPACE + e.text])
      + Details(domains[1..], errors)
  }

  function AllDetails(domains: seq<bytes>, deliveryErr: Error, errors: DomainErrors): seq<bytes>
    requires forall d :: d in domains ==> d in errors
  {
    if Details(domains, errors) == [] then [deliveryErr.text] else Details(domains, errors)
  }

  /** The details on one line. */
  function OnOneLine(details: seq<bytes>): bytes {
    Joined(Fields(Joined(details, SEMICOLON_SPACE), []), SPACE)
  }

  /** Drops runes from the end until the text fits. */
  function Shrunk(message: bytes, limit: nat): (m: bytes)
    ensures |m| <= limit && m <= message
    decreases |message|
  {
    if |message| <= limit then message
    else Shrunk(message[..|message| - LastRuneLen(message)], limit)
  }

  function Bounded(message: bytes): bytes {
    if |message| <= MAX_MESSAGE_BYTES then message
    else Shrunk(message, MAX_MESSAGE_BYTES - |DOTS|) + DOTS
  }

  function Message(prefix: bytes, domains: seq<bytes>, deliveryErr: Error, errors: DomainErrors): bytes
    requires forall d :: d in domains ==> d in errors
  {
    Bounded(prefix + (COLON_SPACE + OnOneLine(AllDetails(domains, deliveryErr, errors))))
  }

  /** The sorted list of a map's keys. */
  ghost predicate IsSortedKeys(domains: seq<bytes>, errors: DomainErrors) {
    Sorted(domains) && Elements(domains) == errors.Keys
  }

  lemma KeysInMap(domains: seq<bytes>, errors: DomainErrors)
    requires Elements(domains) == errors.Keys
    ensures forall d :: d in domains ==> d in errors
  {
    assert forall d :: d in domains ==> d in Elements(domains);
  }

  lemma {:induction false} ShrunkSize(message: bytes, limit: nat)
    requires |message| > limit
    ensures limit - 3 <= |Shrunk(message, limit)|
    decreases |message|
  {
    hide LastRuneLen;
    var m := message[..|message| - LastRuneLen(message)];
    if |m| > limit {
      ShrunkSize(m, limit);
    }
  }

  lemma {:induction false} ShrunkValid(message: bytes, limit: nat)
    requires Valid(message)
    ensures Valid(Shrunk(message, limit))
    decreases |message|
  {
    hide Valid, LastRuneLen;
    if |message| > limit {
      LastRuneOfValid(message);
      ShrunkValid(message[..|message| - LastRuneLen(message)], limit);
    }
  }

  /** At most 128 bytes; when something was cut, a prefix of 122 to 125 bytes and three dots. */
  lemma BoundedSize(message: bytes)
    ensures |Bounded(message)| <= 128
    ensures |message| <= 128 ==> Bounded(message) == message
    ensures |message| > 128 ==>
              var p := Shrunk(message, 125);
              Bounded(message) == p + Ascii("...") && p <= message && 122 <= |p| <= 125 && (Valid(message) ==> Valid(p))
  {
    hide Valid, Shrunk;
    if |message| > MAX_MESSAGE_BYTES {
      ShrunkSize(message, 125);
      if Valid(message) {
        ShrunkValid(message, 125);
      }
    }
  }

  /** The reply stays on one line whatever a remote server said. */
  lemma MessageIsOneLine(prefix: bytes, domains: seq<bytes>, deliveryErr: Error, errors: DomainErrors)
    requires OneLine(prefix) && forall d :: d in domains ==> d in errors
    ensures OneLine(Message(prefix, domains, deliveryErr, errors))
    ensures |Message(prefix, domains, deliveryErr, errors)| <= 128
  {
    hide Fields, Joined, Shrunk, AllDetails;
    var text := Joined(AllDetails(domains, deliveryErr, errors), SEMICOLON_SPACE);
    FieldsOneLine(text, []);
    JoinedOneLine(Fields(text, []), SPACE);
    var line := Joined(Fields(text, []), SPACE);
    OneLineAppend(COLON_SPACE, line);
    OneLineAppend(prefix, COLON_SPACE + line);
    BoundedSize(prefix + (COLON_SPACE + line));
  }

  /** With valid details the reply is valid UTF-8 even where it was cut. */
  lemma MessageIsValid(prefix: bytes, domains: seq<bytes>, deliveryErr: Error, errors: DomainErrors)
    requires Valid(prefix) && forall d :: d in domains ==> d in errors
    requires Valid(Joined(AllDetails(domains, deliveryErr, errors), SEMICOLON_SPACE))
    ensures Valid(Message(prefix, domains, deliveryErr, errors))
  {
    ShortTextsValid();
    hide Fields, Joined, Shrunk, AllDetails, Valid;
    var text := Joined(AllDetails(domains, deliveryErr, errors), SEMICOLON_SPACE);
    NothingValid();
    FieldsValid(text, []);
    JoinedValid(Fields(text, []), SPACE);
    var line := Joined(Fields(text, []), SPACE);
    ValidAppend(COLON_SPACE, line);
    ValidAppend(prefix, COLON_SPACE + line);
    var message := prefix + (COLON_SPACE + line);
    BoundedSize(message);
    if |message| > MAX_MESSAGE_BYTES {
      ValidAppend(Shrunk(message, 125), DOTS);
    }
  }

  lemma ShortTextsValid()
    ensures Valid(COLON_SPACE) && Valid(SPACE) && Valid(DOTS)
  {
    assert COLON_SPACE[1..] == [0x20] && [0x20][1..] == [];
    assert DOTS[1..] == [0x2E, 0x2E] && [0x2E, 0x2E][1..] == [0x2E] && [0x2E][1..] == [];
  }

  lemma {:induction false} SortedListExists(ks: set<bytes>) returns (s: seq<bytes>)
    ensures Sorted(s) && Elements(s) == ks
  {
    if ks == {} {
      s := [];
    } else {
      var x :| x in ks;
      var t := SortedListExists(ks - {x});
      assert x !in Elements(t);
      InsertSorted(x, t);
      InsertElements(x, t);
      s := Insert(x, t);
      assert forall y :: y in t <==> y in Elements(t);
    }
  }

  ghost function SortedKeys(errors: DomainErrors): (s: seq<bytes>)
    ensures IsSortedKeys(s, errors)
    ensures forall d :: d in s ==> d in errors
  {
    assert exists s :: IsSortedKeys(s, errors) by {
      var s := SortedListExists(errors.Keys);
      assert IsSortedKeys(s, errors);
    }
    var s :| IsSortedKeys(s, errors);
    KeysInMap(s, errors);
    s
  }

  /** The sorted keys are determined by the map. */
  lemma SortedKeysUnique(sorted: seq<bytes>, errors: DomainErrors)
    requires IsSortedKeys(sorted, errors)
    ensures SortedKeys(errors) == sorted
  {
    SortedUnique(sorted, SortedKeys(errors));
  }

  // ---- The code

  /** deliverySMTPMessage. The keys of the map come in any order. */
  method DeliveryMessage(prefix: bytes, deliveryErr: Error, errors: DomainErrors)
    returns (message: bytes)
    ensures message == Message(prefix, SortedKeys(errors), deliveryErr, errors)
  {
    hide Sort, Elements, Sorted, Fields, Joined, Details, LastRuneLen, SortedKeys;
    var domains := Keys(errors);
    domains := Sort(domains);
    SortedKeysUnique(domains, errors);
    KeysInMap(domains, errors);
    var details: seq<bytes> := [];
    DetailsStep(domains, errors, 0);
    for k := 0 to |domains|
      invariant Details(domains, errors) == details + Details(domains[k..], errors)
    {
      DetailsStep(domains, errors, k);
      if errors[domains[k]].Some? {
        details := details + [domains[k] + COLON_SPACE + errors[domains[k]].value.text];
      }
    }
    DetailsStep(domains, errors, |domains|);
    assert details == Details(domains, errors);
    if |details| == 0 {
      details := details + [deliveryErr.text];
    }
    assert details == AllDetails(domains, deliveryErr, errors);
    message := prefix;
    message := message + (COLON_SPACE + Joined(Fields(Joined(details, SEMICOLON_SPACE), []), SPACE));
    if |message| <= MAX_MESSAGE_BYTES {
      return;
    }
    var limit := MAX_MESSAGE_BYTES - |DOTS|;
    ghost var whole := message;
    while |message| > limit
      invariant Shrunk(whole, limit) == Shrunk(message, limit)
      decreases |message|
    {
      message := message[..|message| - LastRuneLen(message)];
    }
    message := message + DOTS;
  }

  lemma DetailsStep(domains: seq<bytes>, errors: DomainErrors, k: nat)
    requires k <= |domains| && forall d :: d in domains ==> d in errors
    ensures domains[0..] == domains && domains[|domains|..] == [] && Details([], errors) == []
    ensures k < |domains| ==>
              Details(domains[k..], errors) ==
              (if errors[domains[k]].Some? then [domains[k] + COLON_SPACE + errors[domains[k]].value.text] else [])
              + Details(domains[k + 1..], errors)
  {
    if k < |domains| {
      assert domains[k..][1..] == domains[k + 1..];
    }
  }

  /** `for domain := range domainErrors`: every key once, in an order the language does not fix. */
  method Keys(errors: DomainErrors) returns (domains: seq<bytes>)
    ensures Elements(Sort(domains)) == errors.Keys && Sorted(Sort(domains))
  {
    domains := [];
    var left := errors.Keys;
    while left != {}
      invariant left <= errors.Keys
      invariant forall d :: d in domains <==> d in errors.Keys - left
      invariant forall i, j :: 0 <= i < j < |domains| ==> domains[i] != domains[j]
      decreases left
    {
      var d :| d in left;
      assert forall x :: x in domains + [d] <==> x in domains || x == d;
      assert d !in domains;
      domains := domains + [d];
      left := left - {d};
    }
    SortSorts(domains);
    assert Elements(domains) == errors.Keys;
  }

  /** downstreamDeliverySMTPError; the scan stops at the first domain that has not failed for good. */
  method DownstreamReply(deliveryErr: Option<Error>, errors: DomainErrors) returns (reply: Option<Reply>)
    ensures reply == None <==> deliveryErr == None
    ensures reply.Some? ==> (reply.value.code == 550 <==> AllPermanent(errors))
    ensures reply.Some? ==> reply == Some(ReplyFor(deliveryErr.value, errors))
  {
    hide IsPermanentDeliveryError, Message, IsSortedKeys, SortedKeys;
    if deliveryErr == None {
      return None;
    }
    var permanent := |errors| > 0;
    var left := errors.Keys;
    while left != {}
      invariant left <= errors.Keys
      invariant permanent ==> |errors| > 0 && forall d :: d in errors.Keys - left ==>
                                errors[d].Some? && IsPermanentDeliveryError(errors[d].value)
      invariant !permanent ==> !AllPermanent(errors)
      decreases left
    {
      var d :| d in left;
      if errors[d] == None || !IsPermanentDeliveryError(errors[d].value) {
        permanent := false;
        break;
      }
      left := left - {d};
    }
    var message;
    if permanent {
      message := DeliveryMessage(PERMANENT_PREFIX, deliveryErr.value, errors);
      reply := Some(Reply(550, (5, 0, 0), message));
    } else {
      message := DeliveryMessage(TEMPORARY_PREFIX, deliveryErr.value, errors);
      reply := Some(Reply(451, (4, 4, 0), message));
    }
  }

  /** The reply to a failed delivery: a function of the errors, not of the order the map was walked in. */
  ghost function ReplyFor(deliveryErr: Error, errors: DomainErrors): Reply {
    if AllPermanent(errors)
    then Reply(550, (5, 0, 0), Message(PERMANENT_PREFIX, SortedKeys(errors), deliveryErr, errors))
    else Reply(451, (4, 4, 0), Message(TEMPORARY_PREFIX, SortedKeys(errors), deliveryErr, errors))
  }

  lemma Downstream()
    ensures DOWNSTREAM == Ascii("Downstream delivery ")
  {
  }

  lemma Permanently()
    ensures PERMANENTLY == Ascii("permanently failed")
  {
  }

  lemma Temporarily()
    ensures TEMPORARILY == Ascii("temporarily failed")
  {
  }

  lemma Spelling()
    ensures COLON_SPACE == Ascii(": ") && SEMICOLON_SPACE == Ascii("; ") && SPACE == Ascii(" ")
  {
  }

  /** What the message begins with is never cut off. */
  lemma MessageBegins(prefix: bytes, domains: seq<bytes>, deliveryErr: Error, errors: DomainErrors)
    requires |prefix| <= 120 && forall d :: d in domains ==> d in errors
    ensures prefix + Ascii(": ") <= Message(prefix, domains, deliveryErr, errors)
  {
    hide OnOneLine, AllDetails, Shrunk, Ascii;
    Spelling();
    var begin := prefix + COLON_SPACE;
    var text := OnOneLine(AllDetails(domains, deliveryErr, errors));
    assert prefix + (COLON_SPACE + text) == begin + text;
    BoundedSize(begin + text);
  }

  /** Where the details fit and have no other white space than single spaces, they are in the message as they are. */
  lemma ShortMessage(prefix: bytes, domains: seq<bytes>, deliveryErr: Error, errors: DomainErrors, words: seq<bytes>)
    requires forall d :: d in domains ==> d in errors
    requires var details := Joined(AllDetails(domains, deliveryErr, errors), Ascii("; "));
             |prefix| + 2 + |details| <= 128 && details == Joined(words, [0x20])
             && forall i :: 0 <= i < |words| ==> IsWord(words[i])
    ensures Message(prefix, domains, deliveryErr, errors)
            == prefix + Ascii(": ") + Joined(AllDetails(domains, deliveryErr, errors), Ascii("; "))
  {
    hide OnOneLine, Joined, AllDetails, Bounded, Ascii, IsWord;
    Spelling();
    ShortLine(prefix, AllDetails(domains, deliveryErr, errors), words);
  }

  lemma ShortLine(prefix: bytes, details: seq<bytes>, words: seq<bytes>)
    requires |prefix| + 2 + |Joined(details, SEMICOLON_SPACE)| <= 128
    requires Joined(details, SEMICOLON_SPACE) == Joined(words, SPACE)
    requires forall i :: 0 <= i < |words| ==> IsWord(words[i])
    ensures Bounded(prefix + (COLON_SPACE + OnOneLine(details)))
            == prefix + COLON_SPACE + Joined(details, SEMICOLON_SPACE)
  {
    hide OnOneLine, Joined, Bounded, IsWord;
    LineOfWords(details, words);
    Assoc(prefix, COLON_SPACE, Joined(details, SEMICOLON_SPACE));
    BoundedSize(prefix + COLON_SPACE + Joined(details, SEMICOLON_SPACE));
  }

  lemma LineOfWords(details: seq<bytes>, words: seq<bytes>)
    requires Joined(details, SEMICOLON_SPACE) == Joined(words, SPACE)
    requires forall i :: 0 <= i < |words| ==> IsWord(words[i])
    ensures OnOneLine(details) == Joined(details, SEMICOLON_SPACE)
  {
    hide Fields, Joined, IsWord;
    FieldsOfWords(words);
  }

  /** A detail is a domain and the text of its error; without any, the error of the whole delivery stands in. */
  lemma DetailsAre(a: bytes, b: bytes, deliveryErr: Error, errors: DomainErrors)
    requires a in errors && b in errors
    ensures AllDetails([], deliveryErr, errors) == [deliveryErr.text]
    ensures errors[a] == None && errors[b] == None ==> AllDetails([a, b], deliveryErr, errors) == [deliveryErr.text]
    ensures errors[a].Some? && errors[b] == None ==>
              AllDetails([a, b], deliveryErr, errors) == [a + Ascii(": ") + errors[a].value.text]
    ensures errors[a].Some? && errors[b].Some? ==>
              AllDetails([a, b], deliveryErr, errors)
              == [a + Ascii(": ") + errors[a].value.text, b + Ascii(": ") + errors[b].value.text]
  {
    hide Ascii;
    Spelling();
    assert [a, b][1..] == [b] && [b][1..] == [];
    DetailsStep([a, b], errors, 0);
    DetailsStep([a, b], errors, 1);
    DetailsStep([a, b], errors, 2);
  }

  /** Every failure reply is one line of at most 128 bytes that says which of the two kinds of failure it is. */
  lemma ReplyIsSafe(deliveryErr: Error, errors: DomainErrors)
    ensures var r := ReplyFor(deliveryErr, errors);
            r.code == (if AllPermanent(errors) then 550 else 451)
            && r.enhanced == (if AllPermanent(errors) then (5, 0, 0) else (4, 4, 0))
            && |r.message| <= 128 && (forall i :: 0 <= i < |r.message| ==> r.message[i] != 10 && r.message[i] != 13)
            && Ascii("Downstream delivery ")
               + (if AllPermanent(errors) then Ascii("permanently failed") else Ascii("temporarily failed"))
               + Ascii(": ") <= r.message
  {
    hide Message, SortedKeys, AllPermanent, Ascii;
    Downstream();
    Permanently();
    Temporarily();
    MessageBegins(PERMANENT_PREFIX, SortedKeys(errors), deliveryErr, errors);
    MessageBegins(TEMPORARY_PREFIX, SortedKeys(errors), deliveryErr, errors);
    MessageIsOneLine(PERMANENT_PREFIX, SortedKeys(errors), deliveryErr, errors);
    MessageIsOneLine(TEMPORARY_PREFIX, SortedKeys(errors), deliveryErr, errors);
  }
}
