/** A submitted message from end to end: what the client is told, what is recorded, and what the mail hosts took. */
module Submission {
  import opened Bytes
  import opened ErrorTree
  import opened MailDb
  import opened Audit
  import opened Failover
  import opened SendMany
  import DeliveryReply
  import Strings
  import Utf8

  /** What doSend says, in Chinese, in front of the recipients it could not deliver to. */
  const THESE: bytes := [0xE4, 0xBB, 0xA5, 0xE4, 0xB8, 0x8B]
  const RECIPIENTS: bytes := [0xE6, 0x94, 0xB6, 0xE4, 0xBB, 0xB6, 0xE4, 0xBA, 0xBA]
  const DELIVERY: bytes := [0xE6, 0x8A, 0x95, 0xE9, 0x80, 0x92]
  const FAILED: bytes := [0xE5, 0xA4, 0xB1, 0xE8, 0xB4, 0xA5, 0xEF, 0xBC, 0x9A]
  const FAILED_RECIPIENTS: bytes := THESE + RECIPIENTS + DELIVERY + FAILED

  lemma TheseSpelling()
    ensures THESE == Utf8.EncodeRune(0x4EE5) + Utf8.EncodeRune(0x4E0B)
  {
    hide Utf8.EncodeRune;
    Utf8.ThreeBytes(0xE4, 0xBB, 0xA5);
    Utf8.ThreeBytes(0xE4, 0xB8, 0x8B);
  }

  lemma RecipientsSpelling()
    ensures RECIPIENTS == Utf8.EncodeRune(0x6536) + Utf8.EncodeRune(0x4EF6) + Utf8.EncodeRune(0x4EBA)
  {
    hide Utf8.EncodeRune;
    Utf8.ThreeBytes(0xE6, 0x94, 0xB6);
    Utf8.ThreeBytes(0xE4, 0xBB, 0xB6);
    Utf8.ThreeBytes(0xE4, 0xBA, 0xBA);
  }

  lemma DeliverySpelling()
    ensures DELIVERY == Utf8.EncodeRune(0x6295) + Utf8.EncodeRune(0x9012)
  {
    hide Utf8.EncodeRune;
    Utf8.ThreeBytes(0xE6, 0x8A, 0x95);
    Utf8.ThreeBytes(0xE9, 0x80, 0x92);
  }

  lemma FailedSpelling()
    ensures FAILED == Utf8.EncodeRune(0x5931) + Utf8.EncodeRune(0x8D25) + Utf8.EncodeRune(0xFF1A)
  {
    hide Utf8.EncodeRune;
    Utf8.ThreeBytes(0xE5, 0xA4, 0xB1);
    Utf8.ThreeBytes(0xE8, 0xB4, 0xA5);
    Utf8.ThreeBytes(0xEF, 0xBC, 0x9A);
  }

  /** What doSend returns: one error naming the failed recipients, and the errors by domain. */
  function ResultOf(r: Record): SenderResult {
    SenderResult(if r.reported == [] then None
                 else Some(Error(OtherError, FAILED_RECIPIENTS + Strings.Joined(r.reported, [0x2C]), [])),
                 map d | d in r.errMap :: Some(r.errMap[d]))
  }

  /** Every recipient that is reported is named, in order, and every error by domain is passed on. */
  lemma ResultSays(r: Record)
    ensures forall x :: r.reported == [x] ==>
              ResultOf(r).err.Some? && ResultOf(r).err.value.text == THESE + RECIPIENTS + DELIVERY + FAILED + x
    ensures forall x, y :: r.reported == [x, y] ==>
              ResultOf(r).err.Some?
              && ResultOf(r).err.value.text == THESE + RECIPIENTS + DELIVERY + FAILED + (x + ([0x2C] + y))
    ensures forall d :: d in ResultOf(r).domains <==> d in r.errMap
    ensures forall d :: d in r.errMap ==> ResultOf(r).domains[d] == Some(r.errMap[d])
  {
    forall x, y | r.reported == [x, y]
      ensures Strings.Joined(r.reported, [0x2C]) == x + ([0x2C] + y)
    {
      assert r.reported[1..] == [y];
    }
  }

  /** Whatever goes wrong at the destinations of the message goes wrong for good. */
  ghost predicate AllPermanent(dns: Dns, worlds: Address -> World, e: Envelope) {
    forall k :: 0 <= k < |e.to| && Destination(dns, e.to, k).Some? ==>
                  PermanentAt(dns, worlds, e, Destination(dns, e.to, k).value)
  }

  ghost predicate PermanentAt(dns: Dns, worlds: Address -> World, e: Envelope, a: Address) {
    match FailureOf(dns, worlds, e, a)
    case None => true
    case Some(err) => DeliveryReply.IsPermanentDeliveryError(err)
  }

  /** No two destinations of a domain fail differently. */
  ghost predicate OneWayPerDomain(dns: Dns, worlds: Address -> World, e: Envelope) {
    forall j, k :: 0 <= j < |e.to| && 0 <= k < |e.to| ==>
                     Alike(dns, worlds, e, Destination(dns, e.to, j), Destination(dns, e.to, k))
  }

  ghost predicate Alike(dns: Dns, worlds: Address -> World, e: Envelope, a: Option<Address>, b: Option<Address>) {
    a.Some? && b.Some? && a.value.domain == b.value.domain
    ==> FailureOf(dns, worlds, e, a.value) == None || FailureOf(dns, worlds, e, b.value) == None
        || FailureOf(dns, worlds, e, a.value) == FailureOf(dns, worlds, e, b.value)
  }

  /** The failures on record are those of the message's destinations. */
  lemma FailuresAre(r: Record, dns: Dns, worlds: Address -> World, e: Envelope)
    requires Sent(r, dns, worlds, e)
    ensures forall k :: 0 <= k < |e.to| && Destination(dns, e.to, k).Some? ==>
              Find(r.failures, Destination(dns, e.to, k).value)
              == FailureOf(dns, worlds, e, Destination(dns, e.to, k).value)
    ensures forall a :: a in r.failures ==> exists k :: 0 <= k < |e.to| && Destination(dns, e.to, k) == Some(a)
  {
    hide Recorded, Grouped, Destination, FailureOf, RunsOf, Members, HostList, LookupError;
    forall k | 0 <= k < |e.to| && Destination(dns, e.to, k).Some?
      ensures Destination(dns, e.to, k).value in r.runs
    {
      var a := Destination(dns, e.to, k).value;
      InGroup(dns, e.to, |e.to|, k);
      GroupsAt(r.groups, dns, e.to, a);
    }
    forall a | a in r.failures
      ensures exists k :: 0 <= k < |e.to| && Destination(dns, e.to, k) == Some(a)
    {
      GroupsAt(r.groups, dns, e.to, a);
      GroupNotEmpty(r.groups, dns, e.to, a);
      OfMembers(dns, e.to, |e.to|, a);
    }
  }

  lemma GroupNotEmpty(g: Groups, dns: Dns, to: seq<bytes>, a: Address)
    requires Grouped(g, dns, to, |to|) && a in g.toByDomain
    ensures Get(g.toByDomain, a) != []
  {
    hide Members, ErrorsGrouped, HostsGrouped;
  }

  lemma {:induction false} OfMembers(dns: Dns, to: seq<bytes>, n: nat, a: Address)
    requires n <= |to| && Members(dns, to, n, a) != []
    ensures exists k :: 0 <= k < n && Destination(dns, to, k) == Some(a)
  {
    hide Destination;
    if Destination(dns, to, n - 1) != Some(a) {
      OfMembers(dns, to, n - 1, a);
    }
  }

  lemma RecordSays(r: Record, dns: Dns, worlds: Address -> World, e: Envelope)
    requires Sent(r, dns, worlds, e)
    ensures OneWayPerDomain(dns, worlds, e) ==> OnePerDomain(r.failures)
    ensures AllPermanent(dns, worlds, e)
            <==> forall a :: a in r.failures ==> DeliveryReply.IsPermanentDeliveryError(r.failures[a])
  {
    hide Sent, Destination, FailureOf, DeliveryReply.IsPermanentDeliveryError;
    FailuresAre(r, dns, worlds, e);
    forall a | a in r.failures
      ensures FailureOf(dns, worlds, e, a) == Some(r.failures[a])
      ensures AllPermanent(dns, worlds, e) ==> DeliveryReply.IsPermanentDeliveryError(r.failures[a])
    {
      var k :| 0 <= k < |e.to| && Destination(dns, e.to, k) == Some(a);
      assert AllPermanent(dns, worlds, e) ==> PermanentAt(dns, worlds, e, a);
    }
    if OneWayPerDomain(dns, worlds, e) {
      forall a, b | a in r.failures && b in r.failures && a.domain == b.domain
        ensures r.failures[a] == r.failures[b]
      {
        var j :| 0 <= j < |e.to| && Destination(dns, e.to, j) == Some(a);
        var k :| 0 <= k < |e.to| && Destination(dns, e.to, k) == Some(b);
        assert Alike(dns, worlds, e, Destination(dns, e.to, j), Destination(dns, e.to, k));
      }
    }
  }

  /** The client's answer, from what the mail hosts answer. */
  lemma AnswerIff(r: Record, dns: Dns, worlds: Address -> World, e: Envelope)
    requires Sent(r, dns, worlds, e)
    ensures ReplyCode(ResultOf(r)) == None <==> AllTook(dns, worlds, e)
    ensures ReplyCode(ResultOf(r)) in {None, Some(550), Some(451)}
    ensures OneWayPerDomain(dns, worlds, e) && !AllTook(dns, worlds, e)
            ==> (ReplyCode(ResultOf(r)) == Some(550) <==> AllPermanent(dns, worlds, e))
  {
    hide Sent, AllTook, AllPermanent, OneWayPerDomain, OnePerDomain;
    hide DeliveryReply.IsPermanentDeliveryError, DeliveryReply.Message;
    NilIffAllTook(r, dns, worlds, e);
    ErrMapEmptyIff(r, dns, worlds, e);
    RecordSays(r, dns, worlds, e);
    if r.reported != [] && OnePerDomain(r.failures) {
      DomainsPermanentIff(r, dns, worlds, e);
      MapEmptyIff(r);
    }
  }

  lemma MapEmptyIff(r: Record)
    ensures ResultOf(r).domains == map[] <==> r.errMap == map[]
    ensures forall d :: d in ResultOf(r).domains <==> d in r.errMap
  {
    var domains := ResultOf(r).domains;
    assert domains.Keys == r.errMap.Keys;
    assert domains == map[] <==> domains.Keys == {};
    assert r.errMap == map[] <==> r.errMap.Keys == {};
  }

  lemma DomainsPermanentIff(r: Record, dns: Dns, worlds: Address -> World, e: Envelope)
    requires Sent(r, dns, worlds, e) && OnePerDomain(r.failures)
    ensures (forall d :: d in r.errMap ==> DeliveryReply.IsPermanentDeliveryError(r.errMap[d]))
            <==> forall a :: a in r.failures ==> DeliveryReply.IsPermanentDeliveryError(r.failures[a])
  {
    hide Storing, Reporting, DeliveryReply.IsPermanentDeliveryError, Grouped, RanAll;
    forall d
      ensures d in r.errMap ==> exists a :: a in r.failures && a.domain == d && r.errMap[d] == r.failures[a]
      ensures d !in r.errMap ==> forall a :: a in r.failures ==> a.domain != d
    {
      StoringAt(r.order, r.failures, d);
    }
    forall a | a in r.failures
      ensures a.domain in r.errMap && r.errMap[a.domain] == r.failures[a]
    {
      assert a.domain in r.errMap;
    }
  }

  /** The sender's result is the only one a run sees. */
  lemma OneResult(env: Environment, user: int, db: Db)
    ensures forall i :: 0 <= i < |Events(env, user, db)| && Events(env, user, db)[i].SenderReturned? ==>
                          Events(env, user, db)[i].result == env.sent
  {
    hide RunTx, FirstWorld, SecondWorld, ReplyCode;
  }

  /**
   A committed record of Sent, like a positive answer, exists only for a message every mail host took exactly once;
   a committed record of Fail, like any negative answer after the first commit, only for one some host did not take.
   */
  lemma RecordIsTrue(env: Environment, user: int, db: Db, r: Record, dns: Dns, worlds: Address -> World, e: Envelope)
    requires WellKeyed(db) && env.sent == ResultOf(r) && Sent(r, dns, worlds, e)
    ensures forall i :: 0 <= i < |Events(env, user, db)| ==>
              match Events(env, user, db)[i]
              case Committed(now) =>
                db.nextEmail in now.emails
                && (now.emails[db.nextEmail].status == 1 ==> AllTook(dns, worlds, e))
                && (now.emails[db.nextEmail].status == 2 ==> !AllTook(dns, worlds, e))
              case Replied(None) => AllTook(dns, worlds, e)
              case Replied(Some(code)) =>
                (code == 451
                 && forall j :: 0 <= j < |Events(env, user, db)| ==> Events(env, user, db)[j].Replied?)
                || !AllTook(dns, worlds, e)
              case _ => true
  {
    hide Sent, Events, AllTook, IsPending, ReplyCode;
    EveryRunIsSafe(env, user, db);
    OneResult(env, user, db);
    AnswerIff(r, dns, worlds, e);
    ResultIff(r, dns, worlds, e);
  }

  lemma ResultIff(r: Record, dns: Dns, worlds: Address -> World, e: Envelope)
    requires Sent(r, dns, worlds, e)
    ensures ResultOf(r).err == None <==> AllTook(dns, worlds, e)
  {
    hide Sent, AllTook;
    NilIffAllTook(r, dns, worlds, e);
  }
}
