/** doSend: one message to many recipients, grouped by destination and delivered concurrently. */
module SendMany {
  import opened Bytes
  import opened Substrings
  import opened ErrorTree
  import opened SmtpSession
  import opened Failover
  import DeliveryReply
  import Ids

  // ---- Grouping

  /** What net.LookupMX gives; it may give hosts and an error at once. */
  datatype Lookup = Lookup(hosts: seq<bytes>, err: Option<Error>)

  /** The answer for the domain of the k-th recipient: two lookups of one domain may differ. */
  type Dns = (nat, bytes) -> Lookup

  const AT: byte := 0x40
  /** "test.domain", "127.0.0.1" and "smtp." */
  const TEST_DOMAIN: bytes := [116, 101, 115, 116, 46, 100, 111, 109, 97, 105, 110]
  const LOOPBACK: bytes := [49, 50, 55, 46, 48, 46, 48, 46, 49]
  const SMTP_DOT: bytes := [115, 109, 116, 112, 46]

  /** What follows the only '@'. */
  function DomainOf(address: bytes): Option<bytes> {
    var args := Split(address, AT);
    if |args| == 2 then Some(args[1]) else None
  }

  /** The domain that is looked up for the k-th recipient. */
  function LookedUp(to: seq<bytes>, k: nat): Option<bytes>
    requires k < |to|
  {
    if DomainOf(to[k]) == Some(TEST_DOMAIN) then None else DomainOf(to[k])
  }

  function Destination(dns: Dns, to: seq<bytes>, k: nat): Option<Address>
    requires k < |to|
  {
    match DomainOf(to[k])
    case None => None
    case Some(domain) =>
      if domain == TEST_DOMAIN then Some(Address(LOCALHOST, LOOPBACK))
      else if dns(k, domain).hosts != [] then Some(Address(domain, dns(k, domain).hosts[0]))
      else Some(Address(SMTP_DOT + domain, SMTP_DOT + domain))
  }

  /** The recipients of one destination among the first `n`, in order. */
  function Members(dns: Dns, to: seq<bytes>, n: nat, address: Address): seq<bytes>
    requires n <= |to|
  {
    if n == 0 then []
    else Members(dns, to, n - 1, address) + if Destination(dns, to, n - 1) == Some(address) then [to[n - 1]] else []
  }

  /** The host list the last successful lookup of a domain left. */
  function HostList(dns: Dns, to: seq<bytes>, n: nat, domain: bytes): seq<bytes>
    requires n <= |to|
  {
    if n == 0 then []
    else if LookedUp(to, n - 1) == Some(domain) && dns(n - 1, domain).hosts != [] then dns(n - 1, domain).hosts
    else HostList(dns, to, n - 1, domain)
  }

  /** The last error of a lookup that led to the destination. */
  function LookupError(dns: Dns, to: seq<bytes>, n: nat, address: Address): Option<Error>
    requires n <= |to|
  {
    if n == 0 then None
    else if LookedUp(to, n - 1).Some? && Destination(dns, to, n - 1) == Some(address)
            && dns(n - 1, LookedUp(to, n - 1).value).err.Some? then dns(n - 1, LookedUp(to, n - 1).value).err
    else LookupError(dns, to, n - 1, address)
  }

  /** The maps doSend fills. */
  datatype Groups = Groups(toByDomain: map<Address, seq<bytes>>, mxLookupErrors: map<Address, Error>,
                           mxFailoverMap: map<bytes, seq<bytes>>)

  function Get<K, V>(m: map<K, seq<V>>, k: K): seq<V> { if k in m then m[k] else [] }

  function Find<K, V>(m: map<K, V>, k: K): Option<V> { if k in m then Some(m[k]) else None }

  ghost predicate Grouped(g: Groups, dns: Dns, to: seq<bytes>, n: nat)
    requires n <= |to|
  {
    MembersGrouped(g.toByDomain, dns, to, n) && ErrorsGrouped(g.mxLookupErrors, dns, to, n)
    && HostsGrouped(g.mxFailoverMap, dns, to, n)
  }

  ghost predicate MembersGrouped(m: map<Address, seq<bytes>>, dns: Dns, to: seq<bytes>, n: nat)
    requires n <= |to|
  {
    (forall a :: Get(m, a) == Members(dns, to, n, a)) && forall a :: a in m ==> m[a] != []
  }

  ghost predicate ErrorsGrouped(m: map<Address, Error>, dns: Dns, to: seq<bytes>, n: nat)
    requires n <= |to|
  {
    forall a :: Find(m, a) == LookupError(dns, to, n, a)
  }

  ghost predicate HostsGrouped(m: map<bytes, seq<bytes>>, dns: Dns, to: seq<bytes>, n: nat)
    requires n <= |to|
  {
    forall d :: Get(m, d) == HostList(dns, to, n, d)
  }

  lemma MembersStep(m: map<Address, seq<bytes>>, dns: Dns, to: seq<bytes>, k: nat)
    requires k < |to| && MembersGrouped(m, dns, to, k)
    ensures match Destination(dns, to, k)
            case None => MembersGrouped(m, dns, to, k + 1)
            case Some(a) => MembersGrouped(m[a := Get(m, a) + [to[k]]], dns, to, k + 1)
  {
    hide Destination;
    var t := Destination(dns, to, k);
    forall a
      ensures Members(dns, to, k + 1, a) == Members(dns, to, k, a) + if t == Some(a) then [to[k]] else []
    {
    }
    if t == None {
      assert forall a :: Get(m, a) == Members(dns, to, k + 1, a);
    } else {
      var more := m[t.value := Get(m, t.value) + [to[k]]];
      assert forall a :: Get(more, a) == Members(dns, to, k + 1, a);
    }
  }

  lemma ErrorsStep(m: map<Address, Error>, dns: Dns, to: seq<bytes>, k: nat)
    requires k < |to| && ErrorsGrouped(m, dns, to, k)
    ensures match LookedUp(to, k)
            case None => ErrorsGrouped(m, dns, to, k + 1)
            case Some(domain) =>
              Destination(dns, to, k).Some?
              && ErrorsGrouped(match dns(k, domain).err
                               case None => m
                               case Some(e) => m[Destination(dns, to, k).value := e],
                               dns, to, k + 1)
  {
    hide DomainOf;
    var domain := LookedUp(to, k);
    forall a
      ensures LookupError(dns, to, k + 1, a)
              == if domain.Some? && Destination(dns, to, k) == Some(a) && dns(k, domain.value).err.Some?
                 then dns(k, domain.value).err else LookupError(dns, to, k, a)
    {
    }
    if domain.Some? && dns(k, domain.value).err.Some? {
      var more := m[Destination(dns, to, k).value := dns(k, domain.value).err.value];
      assert forall a :: Find(more, a) == LookupError(dns, to, k + 1, a);
    } else {
      assert forall a :: Find(m, a) == LookupError(dns, to, k + 1, a);
    }
  }

  lemma HostsStep(m: map<bytes, seq<bytes>>, dns: Dns, to: seq<bytes>, k: nat)
    requires k < |to| && HostsGrouped(m, dns, to, k)
    ensures match LookedUp(to, k)
            case None => HostsGrouped(m, dns, to, k + 1)
            case Some(domain) =>
              HostsGrouped(if dns(k, domain).hosts != [] then m[domain := dns(k, domain).hosts] else m, dns, to, k + 1)
  {
    hide LookedUp;
    var domain := LookedUp(to, k);
    forall d
      ensures HostList(dns, to, k + 1, d)
              == if domain == Some(d) && dns(k, d).hosts != [] then dns(k, d).hosts else HostList(dns, to, k, d)
    {
    }
    if domain.Some? && dns(k, domain.value).hosts != [] {
      var more := m[domain.value := dns(k, domain.value).hosts];
      assert forall d :: Get(more, d) == HostList(dns, to, k + 1, d);
    } else {
      assert forall d :: Get(m, d) == HostList(dns, to, k + 1, d);
    }
  }

  /** The first loop of doSend. */
  method Group(dns: Dns, to: seq<bytes>) returns (g: Groups)
    ensures Grouped(g, dns, to, |to|)
  {
    hide Split, MembersGrouped, ErrorsGrouped, HostsGrouped;
    g := Groups(map[], map[], map[]);
    NothingGrouped(dns, to);
    for k := 0 to |to|
      invariant Grouped(g, dns, to, k)
    {
      MembersStep(g.toByDomain, dns, to, k);
      ErrorsStep(g.mxLookupErrors, dns, to, k);
      HostsStep(g.mxFailoverMap, dns, to, k);
      var args := Split(to[k], AT);
      if |args| == 2 {
        if args[1] == TEST_DOMAIN {
          var address := Address(LOCALHOST, LOOPBACK);
          g := g.(toByDomain := g.toByDomain[address := Get(g.toByDomain, address) + [to[k]]]);
        } else {
          var mxInfo := dns(k, args[1]);
          var address := Address(SMTP_DOT + args[1], SMTP_DOT + args[1]);
          if |mxInfo.hosts| > 0 {
            address := Address(args[1], mxInfo.hosts[0]);
            g := g.(mxFailoverMap := g.mxFailoverMap[args[1] := mxInfo.hosts]);
          }
          if mxInfo.err.Some? {
            g := g.(mxLookupErrors := g.mxLookupErrors[address := mxInfo.err.value]);
          }
          g := g.(toByDomain := g.toByDomain[address := Get(g.toByDomain, address) + [to[k]]]);
        }
      }
    }
  }

  lemma NothingGrouped(dns: Dns, to: seq<bytes>)
    ensures MembersGrouped(map[], dns, to, 0) && ErrorsGrouped(map[], dns, to, 0) && HostsGrouped(map[], dns, to, 0)
  {
  }

  // ---- Delivery to all destinations at once

  /** What the goroutines did: each destination's runs, its failure, and the order failures were recorded in. */
  datatype Record = Record(
    groups: Groups, runs: map<Address, seq<seq<Attempt>>>, failures: map<Address, Error>, order: seq<Address>,
    reported: seq<bytes>, errMap: map<bytes, Error>)

  /** errEmailAddress, each failed destination adding its recipients under the lock. */
  function Reporting(order: seq<Address>, groups: map<Address, seq<bytes>>): seq<bytes> {
    if order == [] then []
    else Reporting(order[..|order| - 1], groups) + Get(groups, order[|order| - 1])
  }

  /** errMap, keyed by domain: a later failure of the same domain replaces an earlier one. */
  function Storing(order: seq<Address>, failures: map<Address, Error>): map<bytes, Error> {
    if order == [] then map[]
    else
      var a := order[|order| - 1];
      var before := Storing(order[..|order| - 1], failures);
      if a in failures then before[a.domain := failures[a]] else before
  }

  /** Each element of the set once. */
  ghost predicate Enumerates(order: seq<Address>, s: set<Address>) {
    (forall i, j :: 0 <= i < j < |order| ==> order[i] != order[j]) && forall a :: a in order <==> a in s
  }

  /** What the goroutine of one destination tries: decided by its own network and its own recipients. */
  function RunsOf(dns: Dns, worlds: Address -> World, e: Envelope, a: Address): seq<seq<Attempt>> {
    Runs(worlds(a), a, HostList(dns, e.to, |e.to|, a.domain), e.(to := Members(dns, e.to, |e.to|, a)))
  }

  /** The error it records, if it fails. */
  function FailureOf(dns: Dns, worlds: Address -> World, e: Envelope, a: Address): Option<Error> {
    Result(LookupError(dns, e.to, |e.to|, a), RunsOf(dns, worlds, e, a))
  }

  ghost predicate RanAll(r: Record, dns: Dns, worlds: Address -> World, e: Envelope, done: set<Address>) {
    r.runs.Keys == done && r.failures.Keys <= done
    && forall a :: a in done ==> r.runs[a] == RunsOf(dns, worlds, e, a)
                                 && Find(r.failures, a) == FailureOf(dns, worlds, e, a)
  }

  ghost predicate Recorded(r: Record) {
    Enumerates(r.order, r.failures.Keys) && r.reported == Reporting(r.order, r.groups.toByDomain)
    && r.errMap == Storing(r.order, r.failures)
  }

  /** Everything doSend does for a message `e` to all of `e.to`. */
  ghost predicate Sent(r: Record, dns: Dns, worlds: Address -> World, e: Envelope) {
    Grouped(r.groups, dns, e.to, |e.to|) && RanAll(r, dns, worlds, e, r.groups.toByDomain.Keys) && Recorded(r)
  }

  lemma NothingRecorded(r: Record, dns: Dns, worlds: Address -> World, e: Envelope)
    requires r == Record(r.groups, map[], map[], [], [], map[])
    ensures Recorded(r) && RanAll(r, dns, worlds, e, {})
  {
  }

  lemma GroupsAt(g: Groups, dns: Dns, to: seq<bytes>, a: Address)
    requires Grouped(g, dns, to, |to|)
    ensures Get(g.toByDomain, a) == Members(dns, to, |to|, a)
    ensures Get(g.mxFailoverMap, a.domain) == HostList(dns, to, |to|, a.domain)
    ensures Find(g.mxLookupErrors, a) == LookupError(dns, to, |to|, a)
  {
    hide Members, HostList, LookupError;
  }

  lemma {:induction false} StoringFrame(order: seq<Address>, failures: map<Address, Error>, a: Address, err: Error)
    requires a !in order
    ensures Storing(order, failures[a := err]) == Storing(order, failures)
    decreases |order|
  {
    if order != [] {
      StoringFrame(order[..|order| - 1], failures, a, err);
    }
  }

  /** The end of a goroutine: on failure, recordFailure in its two critical sections. */
  function Ended(r: Record, a: Address, tos: seq<bytes>, runs: seq<seq<Attempt>>, failure: Option<Error>): Record {
    var ran := r.(runs := r.runs[a := runs]);
    match failure
    case None => ran
    case Some(err) =>
      ran.(failures := r.failures[a := err], order := r.order + [a], reported := r.reported + tos,
           errMap := r.errMap[a.domain := err])
  }

  lemma EnumeratesMore(order: seq<Address>, s: set<Address>, a: Address)
    requires Enumerates(order, s) && a !in s
    ensures Enumerates(order + [a], s + {a}) && a !in order
  {
  }

  lemma OrderMore(order: seq<Address>, groups: map<Address, seq<bytes>>, failures: map<Address, Error>, a: Address)
    ensures Reporting(order + [a], groups) == Reporting(order, groups) + Get(groups, a)
    ensures a in failures ==> Storing(order + [a], failures) == Storing(order, failures)[a.domain := failures[a]]
  {
    assert (order + [a])[..|order|] == order;
  }

  lemma EndedRecorded(r: Record, a: Address, runs: seq<seq<Attempt>>, failure: Option<Error>)
    requires Recorded(r) && a !in r.failures
    ensures Recorded(Ended(r, a, Get(r.groups.toByDomain, a), runs, failure))
  {
    hide Enumerates, Reporting, Storing;
    if failure.Some? {
      EnumeratesMore(r.order, r.failures.Keys, a);
      assert r.failures[a := failure.value].Keys == r.failures.Keys + {a};
      OrderMore(r.order, r.groups.toByDomain, r.failures[a := failure.value], a);
      StoringFrame(r.order, r.failures, a, failure.value);
    }
  }

  lemma EndedRan(r: Record, dns: Dns, worlds: Address -> World, e: Envelope, done: set<Address>, a: Address)
    requires RanAll(r, dns, worlds, e, done) && a !in done
    ensures RanAll(Ended(r, a, Get(r.groups.toByDomain, a), RunsOf(dns, worlds, e, a), FailureOf(dns, worlds, e, a)),
                   dns, worlds, e, done + {a})
    ensures a !in r.failures
  {
    hide RunsOf, FailureOf;
  }

  /** The goroutines share nothing but the two records, so a run is decided by the order they end in. */
  method DoSend(dns: Dns, worlds: Address -> World, e: Envelope)
    returns (ok: bool, r: Record)
    ensures Sent(r, dns, worlds, e) && (ok <==> r.reported == [])
  {
    hide Runs, Result, Members, HostList, LookupError, Recorded, Grouped, RanAll;
    var g := Group(dns, e.to);
    r := Record(g, map[], map[], [], [], map[]);
    NothingRecorded(r, dns, worlds, e);
    var left := g.toByDomain.Keys;
    assert g.toByDomain.Keys - left == {};
    while left != {}
      invariant left <= g.toByDomain.Keys && r.groups == g
      invariant RanAll(r, dns, worlds, e, g.toByDomain.Keys - left) && Recorded(r)
      decreases left
    {
      ghost var some := Ids.Pick(left);
      var a: Address :| a in left;
      GroupsAt(g, dns, e.to, a);
      var tos := Get(g.toByDomain, a);
      var failure, runs :=
        Deliver(worlds(a), a, Get(g.mxFailoverMap, a.domain), Find(g.mxLookupErrors, a), e.(to := tos));
      EndedRan(r, dns, worlds, e, g.toByDomain.Keys - left, a);
      EndedRecorded(r, a, runs, failure);
      r := Ended(r, a, tos, runs, failure);
      assert g.toByDomain.Keys - (left - {a}) == g.toByDomain.Keys - left + {a};
      left := left - {a};
    }
    assert g.toByDomain.Keys - {} == g.toByDomain.Keys;
    ok := |r.reported| == 0;
  }

  // ---- What a message comes to

  lemma {:induction false} SplitCount(s: bytes, sep: byte)
    ensures |Split(s, sep)| == 1 + multiset(s)[sep]
  {
    var k := IndexOf(s, sep);
    if k == |s| {
      assert sep !in s;
    } else {
      SplitCount(s[k + 1..], sep);
      assert s == s[..k] + [sep] + s[k + 1..];
      assert sep !in s[..k];
    }
  }

  /** A recipient is passed over, without an error, exactly when its address does not have one '@'. */
  lemma SkippedIff(dns: Dns, to: seq<bytes>, k: nat)
    requires k < |to|
    ensures Destination(dns, to, k) == None <==> multiset(to[k])[0x40] != 1
  {
    SplitCount(to[k], AT);
  }

  /** The recipients among the first `n` whose destination is one of `failed`, in the order of the message. */
  function Failing(dns: Dns, to: seq<bytes>, n: nat, failed: set<Address>): seq<bytes>
    requires n <= |to|
  {
    if n == 0 then []
    else
      var t := Destination(dns, to, n - 1);
      Failing(dns, to, n - 1, failed) + if t.Some? && t.value in failed then [to[n - 1]] else []
  }

  lemma NextMember(dns: Dns, to: seq<bytes>, n: nat, failed: set<Address>, a: Address)
    requires n <= |to|
    ensures n == 0 ==> Failing(dns, to, n, failed) == [] && Members(dns, to, n, a) == []
    ensures n > 0 ==>
              var t := Destination(dns, to, n - 1);
              multiset(Failing(dns, to, n, failed))
              == multiset(Failing(dns, to, n - 1, failed))
                 + (if t.Some? && t.value in failed then multiset{to[n - 1]} else multiset{})
              && multiset(Members(dns, to, n, a))
                 == multiset(Members(dns, to, n - 1, a)) + (if t == Some(a) then multiset{to[n - 1]} else multiset{})
  {
    hide Destination;
  }

  lemma {:induction false} FailingSplit(dns: Dns, to: seq<bytes>, n: nat, failed: set<Address>, a: Address)
    requires n <= |to| && a in failed
    ensures multiset(Failing(dns, to, n, failed))
            == multiset(Failing(dns, to, n, failed - {a})) + multiset(Members(dns, to, n, a))
  {
    hide Destination, Failing, Members;
    NextMember(dns, to, n, failed, a);
    NextMember(dns, to, n, failed - {a}, a);
    if n > 0 {
      FailingSplit(dns, to, n - 1, failed, a);
    }
  }

  lemma {:induction false} NoneFailing(dns: Dns, to: seq<bytes>, n: nat)
    requires n <= |to|
    ensures Failing(dns, to, n, {}) == []
  {
    if n > 0 {
      NoneFailing(dns, to, n - 1);
    }
  }

  lemma EnumeratesLess(order: seq<Address>, s: set<Address>)
    requires Enumerates(order, s)
    ensures order == [] ==> s == {}
    ensures order != [] ==> order[|order| - 1] in s && Enumerates(order[..|order| - 1], s - {order[|order| - 1]})
  {
    if order != [] {
      var front, last := order[..|order| - 1], order[|order| - 1];
      assert order == front + [last];
      assert last !in front;
    } else {
      assert forall a :: a in s ==> a in order;
    }
  }

  lemma {:induction false} ReportedInOrder(order: seq<Address>, failed: set<Address>, groups: map<Address, seq<bytes>>,
                                           dns: Dns, to: seq<bytes>)
    requires Enumerates(order, failed) && MembersGrouped(groups, dns, to, |to|)
    ensures multiset(Reporting(order, groups)) == multiset(Failing(dns, to, |to|, failed))
    decreases |order|
  {
    hide Enumerates, Members, Failing;
    EnumeratesLess(order, failed);
    if order == [] {
      NoneFailing(dns, to, |to|);
    } else {
      var n := |order| - 1;
      ReportedInOrder(order[..n], failed - {order[n]}, groups, dns, to);
      FailingSplit(dns, to, |to|, failed, order[n]);
    }
  }

  /**
   Whatever the order the goroutines end in, the recipients reported are those of the failed destinations, each as
   often as the message names it.
   */
  lemma ReportIsFailing(r: Record, dns: Dns, worlds: Address -> World, e: Envelope)
    requires Sent(r, dns, worlds, e)
    ensures multiset(r.reported) == multiset(Failing(dns, e.to, |e.to|, r.failures.Keys))
  {
    hide Enumerates, Reporting, Storing, MembersGrouped, RanAll, Failing;
    ReportedInOrder(r.order, r.failures.Keys, r.groups.toByDomain, dns, e.to);
  }

  lemma {:induction false} FailingEmptyIff(dns: Dns, to: seq<bytes>, n: nat, failed: set<Address>)
    requires n <= |to|
    ensures Failing(dns, to, n, failed) == []
            <==> forall k :: 0 <= k < n && Destination(dns, to, k).Some? ==> Destination(dns, to, k).value !in failed
  {
    hide Destination;
    if n > 0 {
      FailingEmptyIff(dns, to, n - 1, failed);
    }
  }

  /** A recipient with a destination is in its group. */
  lemma {:induction false} InGroup(dns: Dns, to: seq<bytes>, n: nat, k: nat)
    requires k < n <= |to| && Destination(dns, to, k).Some?
    ensures to[k] in Members(dns, to, n, Destination(dns, to, k).value)
  {
    hide Destination;
    if k < n - 1 {
      InGroup(dns, to, n - 1, k);
    }
  }

  /** One mail host of the destination took the message for its recipients, once. */
  ghost predicate Took(dns: Dns, worlds: Address -> World, e: Envelope, a: Address) {
    Deliveries(Flat(RunsOf(dns, worlds, e, a))) == 1
  }

  lemma TookIff(dns: Dns, worlds: Address -> World, e: Envelope, a: Address)
    ensures FailureOf(dns, worlds, e, a) == None <==> Took(dns, worlds, e, a)
    ensures Took(dns, worlds, e, a)
            <==> var runs := RunsOf(dns, worlds, e, a);
                 exists i, j :: 0 <= i < |runs| && 0 <= j < |runs[i]| && Taken(runs[i][j].trace)
  {
    hide Runs, Result, Deliveries, Flat, Members, HostList, LookupError, StopsAtMostLast, Taken;
    DeliveriesSome(Flat(RunsOf(dns, worlds, e, a)));
    FlatSome(RunsOf(dns, worlds, e, a));
    DestinationFacts(worlds(a), a, HostList(dns, e.to, |e.to|, a.domain), LookupError(dns, e.to, |e.to|, a),
                     e.(to := Members(dns, e.to, |e.to|, a)));
  }

  /** Every recipient with one '@' has a destination that took the message. */
  ghost predicate AllTook(dns: Dns, worlds: Address -> World, e: Envelope) {
    forall k :: 0 <= k < |e.to| && Destination(dns, e.to, k).Some? ==>
                  Took(dns, worlds, e, Destination(dns, e.to, k).value)
  }

  /** The message is reported as sent exactly when the mail hosts took it for every recipient with one '@'. */
  lemma NilIffAllTook(r: Record, dns: Dns, worlds: Address -> World, e: Envelope)
    requires Sent(r, dns, worlds, e)
    ensures r.reported == [] <==> AllTook(dns, worlds, e)
  {
    hide Enumerates, Reporting, Storing, Destination, FailureOf, RunsOf, Took, Members, Failing;
    ReportIsFailing(r, dns, worlds, e);
    assert r.reported == [] <==> multiset(r.reported) == multiset{};
    FailingEmptyIff(dns, e.to, |e.to|, r.failures.Keys);
    forall k | 0 <= k < |e.to| && Destination(dns, e.to, k).Some?
      ensures var a := Destination(dns, e.to, k).value;
              a !in r.failures <==> Took(dns, worlds, e, a)
    {
      var a := Destination(dns, e.to, k).value;
      InGroup(dns, e.to, |e.to|, k);
      GroupsAt(r.groups, dns, e.to, a);
      assert a in r.runs;
      TookIff(dns, worlds, e, a);
    }
  }

  /** What is behind the failure of a destination. */
  ghost predicate FailedAtAllHosts(r: Record, dns: Dns, to: seq<bytes>, a: Address) {
    a in r.runs && a in r.failures
    && var hosts := HostList(dns, to, |to|, a.domain);
       AllTried(r.runs[a], if hosts == [] then [a.mxHost] else hosts)
       && FailedAfter(r.runs[a], LookupError(dns, to, |to|, a), Some(r.failures[a]))
  }

  /**
   A destination fails only after each of its mail hosts was tried, in turn, and none took the message, unless a host
   refused it with a 5xx: then that one was the last. The error is the cause of the last attempt's.
   */
  lemma EveryHostTried(r: Record, dns: Dns, worlds: Address -> World, e: Envelope, a: Address)
    requires a.domain != Ascii("localhost") && a in r.failures && Sent(r, dns, worlds, e)
    ensures FailedAtAllHosts(r, dns, e.to, a)
  {
    hide Recorded, Grouped, Runs, Result, AllTried, FailedAfter, Members, HostList, LookupError;
    assert Find(r.failures, a) == FailureOf(dns, worlds, e, a);
    FailsAllTried(worlds(a), a, HostList(dns, e.to, |e.to|, a.domain), LookupError(dns, e.to, |e.to|, a),
                  e.(to := Members(dns, e.to, |e.to|, a)));
  }

  lemma SameGroups(g: Groups, h: Groups, dns: Dns, to: seq<bytes>)
    requires Grouped(g, dns, to, |to|) && Grouped(h, dns, to, |to|)
    ensures g.toByDomain == h.toByDomain
  {
    hide Members, ErrorsGrouped, HostsGrouped;
    forall a
      ensures a in g.toByDomain <==> a in h.toByDomain
      ensures a in g.toByDomain ==> g.toByDomain[a] == h.toByDomain[a]
    {
      assert Get(g.toByDomain, a) == Get(h.toByDomain, a);
    }
  }

  /**
   The same message, lookups and networks: whatever order the goroutines end in, the same attempts are made, the
   same destinations fail with the same errors, and the same recipients are reported, each as often.
   */
  lemma SameOutcome(r: Record, q: Record, dns: Dns, worlds: Address -> World, e: Envelope)
    requires Sent(r, dns, worlds, e) && Sent(q, dns, worlds, e)
    ensures r.runs == q.runs && r.failures == q.failures && multiset(r.reported) == multiset(q.reported)
  {
    hide Recorded, Grouped, RunsOf, FailureOf, Failing;
    SameGroups(r.groups, q.groups, dns, e.to);
    forall a | a in r.runs
      ensures Find(r.failures, a) == Find(q.failures, a)
    {
    }
    assert forall a :: a in r.failures ==> a in r.runs && Find(r.failures, a) == Some(r.failures[a]);
    assert forall a :: a in q.failures ==> a in r.runs && Find(q.failures, a) == Some(q.failures[a]);
    assert r.failures.Keys == q.failures.Keys;
    ReportIsFailing(r, dns, worlds, e);
    ReportIsFailing(q, dns, worlds, e);
  }

  // ---- The map of errors

  lemma {:induction false} StoringAt(order: seq<Address>, failures: map<Address, Error>, d: bytes)
    requires forall a :: a in order ==> a in failures
    ensures d in Storing(order, failures)
            ==> exists a :: a in order && a.domain == d && Storing(order, failures)[d] == failures[a]
    ensures d !in Storing(order, failures) ==> forall a :: a in order ==> a.domain != d
    decreases |order|
  {
    if order != [] {
      var front, last := order[..|order| - 1], order[|order| - 1];
      assert order == front + [last];
      StoringAt(front, failures, d);
    }
  }

  ghost function Listing(s: set<Address>): (order: seq<Address>)
    ensures Enumerates(order, s)
  {
    if s == {} then []
    else
      var a := AnyOf(s);
      EnumeratesMore(Listing(s - {a}), s - {a}, a);
      assert s - {a} + {a} == s;
      Listing(s - {a}) + [a]
  }

  ghost function AnyOf(s: set<Address>): (a: Address)
    requires s != {}
    ensures a in s
  {
    var x: Address :| x in s;
    x
  }

  /** Failures of one domain are the same. */
  predicate OnePerDomain(failures: map<Address, Error>) {
    forall a, b :: a in failures && b in failures && a.domain == b.domain ==> failures[a] == failures[b]
  }

  lemma EndingWith(failures: map<Address, Error>, a: Address) returns (order: seq<Address>)
    requires a in failures
    ensures Enumerates(order, failures.Keys)
    ensures a.domain in Storing(order, failures) && Storing(order, failures)[a.domain] == failures[a]
  {
    var rest := failures.Keys - {a};
    EnumeratesMore(Listing(rest), rest, a);
    assert rest + {a} == failures.Keys;
    order := Listing(rest) + [a];
    OrderMore(Listing(rest), map[], failures, a);
  }

  /** Goroutines may end in any order. */
  function InOrder(r: Record, order: seq<Address>): Record {
    r.(order := order, reported := Reporting(order, r.groups.toByDomain), errMap := Storing(order, r.failures))
  }

  lemma AnyOrder(r: Record, order: seq<Address>, dns: Dns, worlds: Address -> World, e: Envelope)
    requires Sent(r, dns, worlds, e) && Enumerates(order, r.failures.Keys)
    ensures Sent(InOrder(r, order), dns, worlds, e)
  {
    hide Enumerates, Storing, Reporting, Grouped, RunsOf, FailureOf;
  }

  /**
   The errors by domain are the same in every order of the goroutines exactly when no two destinations of a domain
   failed differently.
   */
  lemma ErrMapFixedIff(r: Record, dns: Dns, worlds: Address -> World, e: Envelope)
    requires Sent(r, dns, worlds, e)
    ensures (forall q :: Sent(q, dns, worlds, e) ==> q.errMap == r.errMap) <==> OnePerDomain(r.failures)
  {
    hide Enumerates, Storing, Reporting, Grouped, RanAll;
    if OnePerDomain(r.failures) {
      forall q | Sent(q, dns, worlds, e)
        ensures q.errMap == r.errMap
      {
        SameOutcome(r, q, dns, worlds, e);
        SameStore(r.order, q.order, r.failures);
      }
    } else {
      var a, b :| a in r.failures && b in r.failures && a.domain == b.domain && r.failures[a] != r.failures[b];
      var p := EndingWith(r.failures, a);
      var q := EndingWith(r.failures, b);
      AnyOrder(r, p, dns, worlds, e);
      AnyOrder(r, q, dns, worlds, e);
      assert InOrder(r, p).errMap[a.domain] != InOrder(r, q).errMap[a.domain];
    }
  }

  lemma SameStore(p: seq<Address>, q: seq<Address>, failures: map<Address, Error>)
    requires OnePerDomain(failures) && Enumerates(p, failures.Keys) && Enumerates(q, failures.Keys)
    ensures Storing(p, failures) == Storing(q, failures)
  {
    hide Storing;
    forall d
      ensures d in Storing(p, failures) <==> d in Storing(q, failures)
      ensures d in Storing(p, failures) ==> Storing(p, failures)[d] == Storing(q, failures)[d]
    {
      StoringAt(p, failures, d);
      StoringAt(q, failures, d);
    }
  }

  lemma {:induction false} StoringKeys(order: seq<Address>, failures: map<Address, Error>)
    requires forall a :: a in order ==> a in failures
    ensures Storing(order, failures) == map[] <==> order == []
  {
    if order != [] {
      var last := order[|order| - 1];
      assert last in order;
      assert last.domain in Storing(order, failures);
    }
  }

  /** There is an error to classify exactly when someone is reported. */
  lemma ErrMapEmptyIff(r: Record, dns: Dns, worlds: Address -> World, e: Envelope)
    requires Sent(r, dns, worlds, e)
    ensures r.errMap == map[] <==> r.reported == []
  {
    hide Reporting, Storing, Members, RunsOf, FailureOf;
    StoringKeys(r.order, r.failures);
    if r.order != [] {
      var a := r.order[|r.order| - 1];
      OrderMore(r.order[..|r.order| - 1], r.groups.toByDomain, r.failures, a);
      assert r.order == r.order[..|r.order| - 1] + [a];
      assert a in r.order && a in r.groups.toByDomain;
      assert r.reported == Reporting(r.order[..|r.order| - 1], r.groups.toByDomain) + r.groups.toByDomain[a];
    } else {
      NothingReported(r.groups.toByDomain);
    }
  }

  lemma NothingReported(groups: map<Address, seq<bytes>>)
    ensures Reporting([], groups) == []
  {
  }

  // ---- Two destinations of one domain that fail differently

  function Dead(text: bytes): TransportError {
    var err := Error(OtherError, text, []);
    assert As(err, AsProtocol) == None;
    err
  }

  /** Nobody answers at an address, with an error of its own. */
  function Unreachable(a: Address): World {
    (log: seq<Attempt>, call: Call) => (trace: seq<Step>, command: Command) => Failed(Dead(a.mxHost))
  }

  lemma DeadAttempt(a: Address, log: seq<Attempt>, call: Call, e: Envelope)
    requires ValidLines(e.from, e.to)
    ensures Made(Unreachable(a), log, call, e).err == Some(Dead(a.mxHost))
  {
    hide ValidLines;
    var plan := PlanFor(call, e);
    var peer := Unreachable(a)(log, call);
    var s := Step(Connect(plan.addr), peer([], Connect(plan.addr)), plan.tls);
    assert Dialogue(peer, plan) == Play(peer, plan, Rejected, plan.tls, [] + [s]);
    assert Play(peer, plan, Rejected, plan.tls, [] + [s]) == [s];
    MonitorStart(plan.job);
    MonitorStep(plan.job, [], s);
    assert [] + [s] == [s];
  }

  lemma {:induction false} DeadDescent(a: Address, before: seq<Attempt>, calls: seq<Call>, e: Envelope)
    requires ValidLines(e.from, e.to)
    ensures forall i :: 0 <= i < |Descent(Unreachable(a), before, calls, e)| ==>
                          Descent(Unreachable(a), before, calls, e)[i].err == Some(Dead(a.mxHost))
    decreases |calls|
  {
    hide Made, Unreachable, Dead, Stops, ValidLines;
    if calls != [] {
      DeadAttempt(a, before, calls[0], e);
      DeadDescent(a, before + [Made(Unreachable(a), before, calls[0], e)], calls[1..], e);
    }
  }

  lemma DeadHost(a: Address, host: bytes, e: Envelope)
    requires ValidLines(e.from, e.to) && a.domain != LOCALHOST
    ensures Result(None, Runs(Unreachable(a), a, [host], e)) == Some(Dead(a.mxHost))
  {
    hide Made, Descent, Unreachable, Dead, ValidLines, Stops, IsPermanentSmtpResponse, Ladder, OtherName;
    var world := Unreachable(a);
    var first := Made(world, [], Call(WithStartTls, host, 25, []), e);
    DeadAttempt(a, [], Call(WithStartTls, host, 25, []), e);
    var calls := Ladder(host, OtherName(a.domain, first.err))[1..];
    DeadDescent(a, [] + [first], calls, e);
    var run := HostRun(world, Flat([]), host, a.domain, e);
    assert run == HostRun(world, [], host, a.domain, e);
    assert run[|run| - 1].err == Some(Dead(a.mxHost));
    HostRunsStep(world, [], [host], a.domain, e);
    HostRunsStep(world, [] + [run], [host][1..], a.domain, e);
    assert Runs(world, a, [host], e) == [run];
  }

  lemma OneAt(x: byte, y: byte)
    requires x != AT && y != AT
    ensures Split([x, AT, y], AT) == [[x], [y]]
  {
    var s: bytes := [x, AT, y];
    assert IndexOf(s, AT) == 1;
    assert s[..1] == [x] && s[2..] == [y];
    assert IndexOf([y], AT) == 1;
    assert Split([y], AT) == [[y]];
  }

  /** Every lookup gives one host, the first lookup another than those behind it. */
  function Changing(): Dns {
    (k: nat, domain: bytes) => Lookup([if k == 0 then [1] else [2]], None)
  }

  /** "a@d" and "b@d". */
  const PAIR: seq<bytes> := [[97, AT, 100], [98, AT, 100]]

  lemma PairDestinations()
    ensures Destination(Changing(), PAIR, 0) == Some(Address([100], [1]))
    ensures Destination(Changing(), PAIR, 1) == Some(Address([100], [2]))
    ensures HostList(Changing(), PAIR, 2, [100]) == [[2]]
    ensures forall a :: LookupError(Changing(), PAIR, 2, a) == None
  {
    OneAt(97, 100);
    OneAt(98, 100);
    hide Split;
    assert [100] != TEST_DOMAIN;
    assert LookedUp(PAIR, 1) == Some([100]);
    forall a
      ensures LookupError(Changing(), PAIR, 2, a) == None
    {
      assert LookupError(Changing(), PAIR, 0, a) == None;
      assert LookupError(Changing(), PAIR, 1, a) == None;
    }
  }

  /** Two recipients of one domain whose lookups differ: both destinations fail, and their errors differ. */
  method TwoFailures() returns (e: Envelope, r: Record)
    ensures Sent(r, Changing(), Unreachable, e) && !OnePerDomain(r.failures)
  {
    hide Members, Runs, Result, Recorded, ErrorsGrouped, HostsGrouped, Dead, Destination, HostList, LookupError;
    e := Envelope([], [], PAIR, []);
    var ok;
    ok, r := DoSend(Changing(), Unreachable, e);
    PairDestinations();
    Fails(e, Address([100], [1]), 0, r);
    Fails(e, Address([100], [2]), 1, r);
    DeadApart();
  }

  lemma {:induction false} MembersAmong(dns: Dns, to: seq<bytes>, n: nat, a: Address)
    requires n <= |to|
    ensures forall i :: 0 <= i < |Members(dns, to, n, a)| ==> Members(dns, to, n, a)[i] in to
  {
    if n > 0 {
      MembersAmong(dns, to, n - 1, a);
    }
  }

  lemma PairIsPlain()
    ensures ValidLine([]) && forall x :: x in PAIR ==> ValidLine(x)
  {
  }

  lemma DeadApart()
    ensures Dead([1]) != Dead([2])
  {
    assert Dead([1]).text == [1] && Dead([2]).text == [2];
  }

  lemma Fails(e: Envelope, a: Address, k: nat, r: Record)
    requires e == Envelope([], [], PAIR, []) && k < 2 && a.domain == [100]
    requires Destination(Changing(), PAIR, k) == Some(a) && Sent(r, Changing(), Unreachable, e)
    ensures a in r.failures && r.failures[a] == Dead(a.mxHost)
  {
    hide Members, Runs, Result, Recorded, Dead, Destination, HostList, LookupError, Unreachable;
    PairDestinations();
    InGroup(Changing(), PAIR, 2, k);
    GroupsAt(r.groups, Changing(), PAIR, a);
    MembersAmong(Changing(), PAIR, 2, a);
    PairIsPlain();
    DeadHost(a, [2], e.(to := Members(Changing(), PAIR, 2, a)));
    assert Find(r.failures, a) == Some(Dead(a.mxHost));
  }

  // ---- In the terms of the addresses

  lemma Spelling()
    ensures TEST_DOMAIN == Ascii("test.domain") && LOOPBACK == Ascii("127.0.0.1") && SMTP_DOT == Ascii("smtp.")
    ensures LOCALHOST == Ascii("localhost")
  {
  }

  /** The address of somebody at the domain. */
  ghost predicate IsAt(address: bytes, domain: bytes) {
    0x40 !in domain && exists user: bytes :: 0x40 !in user && address == user + [0x40] + domain
  }

  lemma DomainIff(address: bytes, domain: bytes)
    ensures DomainOf(address) == Some(domain) <==> IsAt(address, domain)
  {
    hide Split, Rejoined;
    SplitJoins(address, AT);
    var args := Split(address, AT);
    if |args| == 2 {
      Two(args);
      assert address == args[0] + [0x40] + args[1];
    }
    if IsAt(address, domain) {
      var user: bytes :| 0x40 !in user && address == user + [0x40] + domain;
      Two([user, domain]);
      SplitIff(address, AT, [user, domain]);
    }
  }

  lemma Two(parts: seq<bytes>)
    requires |parts| == 2
    ensures Rejoined(parts, AT) == parts[0] + [0x40] + parts[1]
  {
    assert parts[1..] == [parts[1]];
  }

  /**
   Mail for the test domain goes to this machine, mail for any other domain to the first host its lookup names, or to
   the host "smtp." in front of the domain where the lookup names none.
   */
  lemma DestinationIs(dns: Dns, to: seq<bytes>, k: nat, domain: bytes)
    requires k < |to| && IsAt(to[k], domain)
    ensures Destination(dns, to, k)
            == Some(if domain == Ascii("test.domain") then Address(Ascii("localhost"), Ascii("127.0.0.1"))
                    else if dns(k, domain).hosts != [] then Address(domain, dns(k, domain).hosts[0])
                    else Address(Ascii("smtp.") + domain, Ascii("smtp.") + domain))
  {
    hide DomainOf;
    Spelling();
    DomainIff(to[k], domain);
  }

  /** The hosts of a domain are those of the last lookup that named any. */
  lemma {:induction false} LastLookup(dns: Dns, to: seq<bytes>, n: nat, k: nat, domain: bytes)
    requires k < n <= |to| && IsAt(to[k], domain) && domain != Ascii("test.domain") && dns(k, domain).hosts != []
    requires forall j :: k < j < n && IsAt(to[j], domain) ==> dns(j, domain).hosts == []
    ensures HostList(dns, to, n, domain) == dns(k, domain).hosts
  {
    hide DomainOf, IsAt, Ascii;
    Spelling();
    DomainIff(to[n - 1], domain);
    if k < n - 1 {
      LastLookup(dns, to, n - 1, k, domain);
    }
  }

  /** The lookup error of a destination is that of the last lookup that led to it and failed. */
  lemma {:induction false} LastError(dns: Dns, to: seq<bytes>, n: nat, k: nat, domain: bytes)
    requires k < n <= |to| && IsAt(to[k], domain) && domain != Ascii("test.domain") && dns(k, domain).err.Some?
    requires forall j, d :: k < j < n && IsAt(to[j], d) && Destination(dns, to, j) == Destination(dns, to, k) ==>
                              dns(j, d).err == None
    ensures Destination(dns, to, k).Some?
            && LookupError(dns, to, n, Destination(dns, to, k).value) == dns(k, domain).err
  {
    hide DomainOf, IsAt, Ascii, Destination;
    Spelling();
    DomainIff(to[k], domain);
    DestinationIs(dns, to, k, domain);
    if k < n - 1 {
      LastError(dns, to, n - 1, k, domain);
      if DomainOf(to[n - 1]).Some? {
        DomainIff(to[n - 1], DomainOf(to[n - 1]).value);
      }
    }
  }
}
