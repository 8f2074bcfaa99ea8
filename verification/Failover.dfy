/** Delivery of one message: recipients by mail host, hosts in turn, and for each host several ways in turn. */
module Failover {
  import opened Bytes
  import opened ErrorTree
  import opened SmtpSession
  import opened Substrings
  import DomainMatch
  import DeliveryReply

  // ---- Attempts

  datatype Way = WithStartTls | WithTls | Plain

  datatype Call = Call(way: Way, host: bytes, port: int, serverName: bytes)

  /** One attempt, with everything that was said during it. */
  datatype Attempt = Attempt(call: Call, job: Job, err: Option<Error>, trace: seq<Step>)

  /** The network behind the attempts for one destination: any peer for each attempt, given those before. */
  type World = (seq<Attempt>, Call) -> Peer

  datatype Envelope = Envelope(from: bytes, fromDomain: bytes, to: seq<bytes>, data: bytes)

  /** Delivered, or refused for good: nothing is to be tried after it. */
  predicate Stops(a: Attempt) {
    a.err == None || IsPermanentSmtpResponse(a.err.value)
  }

  /** The command shows sender, recipients or content. */
  predicate OfTheMessage(c: Command) { c.MailFrom? || c.RcptTo? || c.Data? || c.Content? }

  /** Envelope and content go out without TLS on the plain way and on no other. */
  predicate ClearIfPlain(a: Attempt) {
    forall k :: 0 <= k < |a.trace| && OfTheMessage(a.trace[k].command) ==> (!a.trace[k].tls <==> a.call.way == Plain)
  }

  /** The attempt is a session for this envelope and its error is what the session came to. */
  ghost predicate Faithful(a: Attempt, e: Envelope) {
    a.job == Job(e.from, e.to, e.data, a.call.way != Plain) && Reported(a.job, a.trace, a.err) && ClearIfPlain(a)
  }

  ghost predicate AllFaithful(log: seq<Attempt>, e: Envelope) {
    forall i :: 0 <= i < |log| ==> Faithful(log[i], e)
  }

  /** Only the last attempt may have been one that stops. */
  predicate StopsAtMostLast(log: seq<Attempt>) {
    forall i :: 0 <= i < |log| - 1 ==> !Stops(log[i])
  }

  /** Each way asks for TLS in its own manner; only the last shows envelope and content without it. */
  function PlanFor(call: Call, e: Envelope): Plan {
    Plan(Job(e.from, e.to, e.data, call.way != Plain), call.host, e.fromDomain,
         call.way == WithStartTls, call.way == WithTls)
  }

  /** The attempt that a call leads to, after those in `log`. */
  function Made(world: World, log: seq<Attempt>, call: Call, e: Envelope): Attempt {
    var plan := PlanFor(call, e);
    var trace := Dialogue(world(log, call), plan);
    Attempt(call, plan.job, Verdict(plan, trace), trace)
  }

  method Try(world: World, log: seq<Attempt>, call: Call, e: Envelope) returns (a: Attempt)
    ensures a == Made(world, log, call, e)
  {
    hide Dialogue, Verdict;
    var err, trace;
    var peer := world(log, call);
    match call.way {
      case WithStartTls => err, trace := SendMail(peer, call.host, e.fromDomain, e.from, e.to, e.data);
      case WithTls => err, trace := SendMailWithTls(peer, call.host, e.fromDomain, e.from, e.to, e.data);
      case Plain => err, trace := SendMailUnsafe(peer, call.host, e.fromDomain, e.from, e.to, e.data);
    }
    a := Attempt(call, Job(e.from, e.to, e.data, call.way != Plain), err, trace);
  }

  lemma MadeInClear(world: World, log: seq<Attempt>, call: Call, e: Envelope)
    ensures ClearIfPlain(Made(world, log, call, e))
  {
    hide Play, Verdict, Monitor;
    var plan := PlanFor(call, e);
    if call.way == Plain {
      PlayInClear(world(log, call), plan, Start, []);
    } else {
      AttemptReported(world(log, call), plan);
      SealedFacts(plan.job, Dialogue(world(log, call), plan));
    }
  }

  lemma MadeFaithful(world: World, log: seq<Attempt>, call: Call, e: Envelope)
    ensures Faithful(Made(world, log, call, e), e) && Made(world, log, call, e).call == call
  {
    hide Dialogue, Verdict, Reported, ClearIfPlain;
    AttemptReported(world(log, call), PlanFor(call, e));
    MadeInClear(world, log, call, e);
  }

  // ---- One host

  /** The name to ask for when a host proved a different name than its own. */
  function OtherName(domain: bytes, err: Option<Error>): Option<bytes> {
    if err == None || As(err.value, AsCertificate) == None then None
    else
      match AsAny(As(err.value, AsCertificate).value.inner, AsHostname)
      case None => None
      case Some(hostname) =>
        match hostname.kind.dnsNames
        case None => None
        case Some(names) => Some(DomainMatch.Chosen(domain, names))
  }

  /** The ways into a host in the order they are tried. */
  function Ladder(host: bytes, other: Option<bytes>): (calls: seq<Call>)
    ensures 4 <= |calls| <= 5
  {
    [Call(WithStartTls, host, 25, [])]
    + (if other.Some? then [Call(WithStartTls, host, 25, other.value)] else [])
    + [Call(WithTls, host, 587, []), Call(WithTls, host, 465, []), Call(Plain, host, 25, [])]
  }

  function Calls(log: seq<Attempt>): seq<Call> {
    seq(|log|, i requires 0 <= i < |log| => log[i].call)
  }

  /** A run down the ladder: from the top, until an attempt stops it or no way is left. */
  ghost predicate Climbs(log: seq<Attempt>, domain: bytes, host: bytes) {
    log != []
    && var ladder := Ladder(host, OtherName(domain, log[0].err));
       Calls(log) <= ladder && StopsAtMostLast(log) && (Stops(log[|log| - 1]) || |log| == |ladder|)
  }

  /** The attempts that some calls in turn lead to, until one stops them. */
  function Descent(world: World, before: seq<Attempt>, calls: seq<Call>, e: Envelope): seq<Attempt>
    decreases |calls|
  {
    if calls == [] then []
    else
      var a := Made(world, before, calls[0], e);
      [a] + if Stops(a) then [] else Descent(world, before + [a], calls[1..], e)
  }

  /** The attempts on one host. */
  function HostRun(world: World, before: seq<Attempt>, host: bytes, domain: bytes, e: Envelope): seq<Attempt> {
    var first := Made(world, before, Call(WithStartTls, host, 25, []), e);
    [first]
    + if Stops(first) then [] else Descent(world, before + [first], Ladder(host, OtherName(domain, first.err))[1..], e)
  }

  lemma Rung(world: World, before: seq<Attempt>, log: seq<Attempt>, calls: seq<Call>, e: Envelope)
    requires calls != []
    ensures var a := Made(world, before + log, calls[0], e);
            log + Descent(world, before + log, calls, e)
            == (log + [a]) + if Stops(a) then [] else Descent(world, before + (log + [a]), calls[1..], e)
  {
    hide Made, Stops, Descent;
    DescentStep(world, before + log, calls, e);
    Regroup(before, log, Made(world, before + log, calls[0], e));
  }

  lemma DescentStep(world: World, before: seq<Attempt>, calls: seq<Call>, e: Envelope)
    ensures calls != [] ==>
              var a := Made(world, before, calls[0], e);
              Descent(world, before, calls, e)
              == [a] + if Stops(a) then [] else Descent(world, before + [a], calls[1..], e)
  {
    hide Made, Stops;
  }

  lemma Regroup(before: seq<Attempt>, log: seq<Attempt>, a: Attempt)
    ensures before + log + [a] == before + (log + [a])
    ensures forall rest: seq<Attempt> :: log + ([a] + rest) == (log + [a]) + rest
  {
  }

  lemma LastRung(world: World, before: seq<Attempt>, log: seq<Attempt>, e: Envelope)
    ensures log + Descent(world, before, [], e) == log && log + [] == log
  {
  }

  /** tryDeliverToMX. */
  method TryDeliverToMX(world: World, before: seq<Attempt>, mxHost: bytes, domain: bytes, e: Envelope)
    returns (err: Option<Error>, log: seq<Attempt>)
    ensures log == HostRun(world, before, mxHost, domain, e) && err == log[|log| - 1].err
  {
    hide Made, Descent, Faithful, As, AsAny, IsPermanentSmtpResponse, DomainMatch.Chosen;
    var a := Try(world, before, Call(WithStartTls, mxHost, 25, []), e);
    MadeFaithful(world, before, Call(WithStartTls, mxHost, 25, []), e);
    log := [a];
    err := a.err;
    if err == None {
      return;
    }
    ghost var calls := Ladder(mxHost, OtherName(domain, err))[1..];
    var certificateErr := As(err.value, AsCertificate);
    if certificateErr.Some? {
      CertificateIsNotReply(a, e);
      var hostnameErr := AsAny(certificateErr.value.inner, AsHostname);
      if hostnameErr.Some? && hostnameErr.value.kind.dnsNames.Some? {
        var name := DomainMatch.DomainMatch(domain, hostnameErr.value.kind.dnsNames.value);
        Rung(world, before, log, calls, e);
        a := Try(world, before + log, Call(WithStartTls, mxHost, 25, name), e);
        log := log + [a];
        err := a.err;
        calls := calls[1..];
      }
    }
    if err == None || IsPermanentSmtpResponse(err.value) {
      return;
    }
    assert calls == [Call(WithTls, mxHost, 587, []), Call(WithTls, mxHost, 465, []), Call(Plain, mxHost, 25, [])];
    Rung(world, before, log, calls, e);
    a := Try(world, before + log, Call(WithTls, mxHost, 587, []), e);
    log := log + [a];
    err := a.err;
    if err == None || IsPermanentSmtpResponse(err.value) {
      return;
    }
    assert calls[1..][1..] == calls[2..];
    Rung(world, before, log, calls[1..], e);
    a := Try(world, before + log, Call(WithTls, mxHost, 465, []), e);
    log := log + [a];
    err := a.err;
    if err == None || IsPermanentSmtpResponse(err.value) {
      return;
    }
    assert calls[2..][1..] == [];
    Rung(world, before, log, calls[2..], e);
    a := Try(world, before + log, Call(Plain, mxHost, 25, []), e);
    log := log + [a];
    err := a.err;
    LastRung(world, before + log, log, e);
  }

  lemma {:induction false} DescentFacts(world: World, before: seq<Attempt>, calls: seq<Call>, e: Envelope)
    ensures var log := Descent(world, before, calls, e);
            Calls(log) <= calls && StopsAtMostLast(log) && AllFaithful(log, e)
            && (|log| == |calls| || (log != [] && Stops(log[|log| - 1])))
    decreases |calls|
  {
    hide Made, Faithful, Stops;
    if calls != [] {
      var a := Made(world, before, calls[0], e);
      MadeFaithful(world, before, calls[0], e);
      var rest := if Stops(a) then [] else Descent(world, before + [a], calls[1..], e);
      DescentFacts(world, before + [a], calls[1..], e);
      assert Calls([a] + rest) == [calls[0]] + Calls(rest);
      assert calls == [calls[0]] + calls[1..];
    }
  }

  /** Whatever the network does, a run on a host goes down the ladder. */
  lemma HostRunClimbs(world: World, before: seq<Attempt>, host: bytes, domain: bytes, e: Envelope)
    ensures Climbs(HostRun(world, before, host, domain, e), domain, host)
    ensures AllFaithful(HostRun(world, before, host, domain, e), e)
  {
    hide Made, Faithful, Stops, Descent, OtherName;
    var call := Call(WithStartTls, host, 25, []);
    var first := Made(world, before, call, e);
    MadeFaithful(world, before, call, e);
    var ladder := Ladder(host, OtherName(domain, first.err));
    DescentFacts(world, before + [first], ladder[1..], e);
    var rest := if Stops(first) then [] else Descent(world, before + [first], ladder[1..], e);
    assert Calls([first] + rest) == [call] + Calls(rest);
    assert ladder == [call] + ladder[1..];
  }

  /** A certificate error is never a reply, so the second attempt is not made after a 5xx. */
  lemma CertificateIsNotReply(a: Attempt, e: Envelope)
    requires Faithful(a, e) && a.err.Some? && As(a.err.value, AsCertificate).Some?
    ensures !Stops(a)
  {
    hide Monitor;
    assert Cause(a.trace, a.err.value);
  }

  // ---- One destination

  /** The recipients' domain and the host their mail goes to first. */
  datatype Address = Address(domain: bytes, mxHost: bytes)

  /** "localhost" */
  const LOCALHOST: bytes := [108, 111, 99, 97, 108, 104, 111, 115, 116]

  /** The attempts of all runs in the order they were made. */
  function Flat(runs: seq<seq<Attempt>>): seq<Attempt> {
    if runs == [] then [] else Flat(runs[..|runs| - 1]) + runs[|runs| - 1]
  }

  predicate Stopped(run: seq<Attempt>) {
    run != [] && Stops(run[|run| - 1])
  }

  /** Hosts taken in turn, one run down the ladder each, until one is stopped or no host is left. */
  ghost predicate InTurn(runs: seq<seq<Attempt>>, domain: bytes, hosts: seq<bytes>) {
    0 < |runs| <= |hosts|
    && (forall i :: 0 <= i < |runs| ==> Climbs(runs[i], domain, hosts[i]))
    && (forall i :: 0 <= i < |runs| - 1 ==> !Stopped(runs[i]))
    && (Stopped(runs[|runs| - 1]) || |runs| == |hosts|)
  }

  /** What is recorded for a destination whose attempts are over. */
  function Failure(lookupErr: Option<Error>, last: Attempt): Option<Error> {
    if last.err == None then None else Some(DeliveryReply.FailureCause(lookupErr, last.err.value))
  }

  predicate Complete(runs: seq<seq<Attempt>>) { runs != [] && runs[|runs| - 1] != [] }

  /** The failure of a destination: the cause of its last attempt's error. */
  function Result(lookupErr: Option<Error>, runs: seq<seq<Attempt>>): Option<Error> {
    if !Complete(runs) then None else Failure(lookupErr, runs[|runs| - 1][|runs[|runs| - 1]| - 1])
  }

  function Hosts(address: Address, failover: seq<bytes>): (hosts: seq<bytes>)
    ensures hosts != []
  {
    if failover == [] then [address.mxHost] else failover
  }

  /** The runs of a finished destination. */
  ghost predicate Finished(runs: seq<seq<Attempt>>, address: Address, failover: seq<bytes>) {
    if address.domain == LOCALHOST then
      |runs| == 1 && Calls(runs[0]) == [Call(Plain, address.mxHost, 25, [])]
    else InTurn(runs, address.domain, Hosts(address, failover))
  }

  /** The runs on hosts taken in turn, after some runs that nothing stopped. */
  function HostRuns(world: World, runs: seq<seq<Attempt>>, hosts: seq<bytes>, domain: bytes, e: Envelope)
    : seq<seq<Attempt>>
    decreases |hosts|
  {
    if hosts == [] then runs
    else
      var run := HostRun(world, Flat(runs), hosts[0], domain, e);
      if Stopped(run) then runs + [run] else HostRuns(world, runs + [run], hosts[1..], domain, e)
  }

  /** All that is tried for one destination. */
  function Runs(world: World, address: Address, failover: seq<bytes>, e: Envelope): seq<seq<Attempt>> {
    if address.domain == LOCALHOST then [[Made(world, [], Call(Plain, address.mxHost, 25, []), e)]]
    else HostRuns(world, [], Hosts(address, failover), address.domain, e)
  }

  /** The goroutine of one destination. */
  method Deliver(world: World, address: Address, failover: seq<bytes>, lookupErr: Option<Error>, e: Envelope)
    returns (failure: Option<Error>, runs: seq<seq<Attempt>>)
    ensures runs == Runs(world, address, failover, e) && failure == Result(lookupErr, runs)
  {
    hide Made, HostRun, HostRuns, IsPermanentSmtpResponse, Flat;
    if address.domain == LOCALHOST {
      var a := Try(world, [], Call(Plain, address.mxHost, 25, []), e);
      return Failure(lookupErr, a), [[a]];
    }
    var mxHosts := Hosts(address, failover);
    runs := [];
    var lastErr := None;
    assert mxHosts[0..] == mxHosts;
    for i := 0 to |mxHosts|
      invariant HostRuns(world, [], mxHosts, address.domain, e)
                == HostRuns(world, runs, mxHosts[i..], address.domain, e)
      invariant |runs| == i
      invariant i > 0 ==> lastErr.Some? && runs[i - 1] != [] && lastErr == runs[i - 1][|runs[i - 1]| - 1].err
    {
      HostRunsStep(world, runs, mxHosts[i..], address.domain, e);
      assert mxHosts[i..][1..] == mxHosts[i + 1..];
      var err, run := TryDeliverToMX(world, Flat(runs), mxHosts[i], address.domain, e);
      runs := runs + [run];
      if err == None {
        return None, runs;
      }
      lastErr := err;
      if IsPermanentSmtpResponse(err.value) {
        return Some(DeliveryReply.FailureCause(lookupErr, err.value)), runs;
      }
    }
    HostRunsStep(world, runs, mxHosts[|mxHosts|..], address.domain, e);
    failure := Some(DeliveryReply.FailureCause(lookupErr, lastErr.value));
  }

  lemma HostRunsStep(world: World, runs: seq<seq<Attempt>>, hosts: seq<bytes>, domain: bytes, e: Envelope)
    ensures hosts == [] ==> HostRuns(world, runs, hosts, domain, e) == runs
    ensures hosts != [] ==>
              var run := HostRun(world, Flat(runs), hosts[0], domain, e);
              run != []
              && HostRuns(world, runs, hosts, domain, e)
                 == if Stopped(run) then runs + [run] else HostRuns(world, runs + [run], hosts[1..], domain, e)
  {
    hide Made, Descent, Stops;
  }

  lemma ClimbsSome(log: seq<Attempt>, domain: bytes, host: bytes)
    requires Climbs(log, domain, host)
    ensures 1 <= |log| <= 5 && StopsAtMostLast(log)
    ensures forall i :: 0 <= i < |log| ==> log[i].call.host == host
  {
    var ladder := Ladder(host, OtherName(domain, log[0].err));
    forall i | 0 <= i < |log|
      ensures log[i].call.host == host
    {
      assert Calls(log)[i] == ladder[i];
    }
  }

  // ---- What a destination's attempts amount to

  /** The attempts in which a server took the message: its final reply to the content was 250. */
  function Deliveries(log: seq<Attempt>): nat {
    if log == [] then 0
    else Deliveries(log[..|log| - 1]) + if Finals(log[|log| - 1].trace) > 0 then 1 else 0
  }

  lemma {:induction false} DeliveriesSome(log: seq<Attempt>)
    ensures Deliveries(log) > 0 <==> exists i :: 0 <= i < |log| && Taken(log[i].trace)
  {
    hide Finals, Taken;
    if log != [] {
      var front := log[..|log| - 1];
      DeliveriesSome(front);
      assert forall i :: 0 <= i < |front| ==> log[i] == front[i];
      TakenIff(log[|log| - 1].trace);
    }
  }

  lemma TakenIff(trace: seq<Step>)
    ensures Taken(trace) <==> Finals(trace) > 0
  {
    FinalsSome(trace);
  }

  lemma {:induction false} FlatSome(runs: seq<seq<Attempt>>)
    ensures (exists k :: 0 <= k < |Flat(runs)| && Taken(Flat(runs)[k].trace))
            <==> exists i, j :: 0 <= i < |runs| && 0 <= j < |runs[i]| && Taken(runs[i][j].trace)
    decreases |runs|
  {
    hide Taken;
    if runs != [] {
      var front, last := runs[..|runs| - 1], runs[|runs| - 1];
      FlatSome(front);
      var n := |Flat(front)|;
      assert Flat(runs) == Flat(front) + last;
      assert forall k :: 0 <= k < n ==> Flat(runs)[k] == Flat(front)[k];
      assert forall j :: 0 <= j < |last| ==> Flat(runs)[n + j] == last[j];
      assert forall k :: n <= k < |Flat(runs)| ==> Flat(runs)[k] == last[k - n];
      assert forall i :: 0 <= i < |front| ==> runs[i] == front[i];
    }
  }

  lemma {:induction false} NoneDelivered(log: seq<Attempt>, e: Envelope)
    requires AllFaithful(log, e) && forall i :: 0 <= i < |log| ==> !Stops(log[i])
    ensures Deliveries(log) == 0
  {
    hide Monitor, Finals, Contents, Accepted, IsPermanentSmtpResponse, Reported;
    if log != [] {
      var a := log[|log| - 1];
      NoneDelivered(log[..|log| - 1], e);
      NilIffAccepted(a.job, a.trace, a.err);
    }
  }

  /** At most the last attempt delivered, and it did exactly when its result is nil. */
  lemma DeliveredOnce(log: seq<Attempt>, e: Envelope)
    requires log != [] && AllFaithful(log, e) && StopsAtMostLast(log)
    ensures Deliveries(log) == if log[|log| - 1].err == None then 1 else 0
  {
    hide Monitor, Finals, Contents, Accepted, IsPermanentSmtpResponse, Reported;
    var a := log[|log| - 1];
    NoneDelivered(log[..|log| - 1], e);
    NilIffAccepted(a.job, a.trace, a.err);
  }

  lemma {:induction false} FlatFacts(runs: seq<seq<Attempt>>, e: Envelope)
    requires forall i :: 0 <= i < |runs| ==> AllFaithful(runs[i], e) && StopsAtMostLast(runs[i]) && 1 <= |runs[i]| <= 5
    requires forall i :: 0 <= i < |runs| - 1 ==> !Stopped(runs[i])
    ensures AllFaithful(Flat(runs), e) && StopsAtMostLast(Flat(runs)) && |runs| <= |Flat(runs)| <= 5 * |runs|
    ensures runs != [] ==> Flat(runs)[|Flat(runs)| - 1] == runs[|runs| - 1][|runs[|runs| - 1]| - 1]
    ensures (forall i :: 0 <= i < |runs| ==> !Stopped(runs[i]))
            ==> forall i :: 0 <= i < |Flat(runs)| ==> !Stops(Flat(runs)[i])
    decreases |runs|
  {
    hide Faithful, Stops;
    if runs != [] {
      var front, last := runs[..|runs| - 1], runs[|runs| - 1];
      FlatFacts(front, e);
      assert Flat(runs) == Flat(front) + last;
    }
  }

  lemma {:induction false} HostRunsInTurn(world: World, runs: seq<seq<Attempt>>, all: seq<bytes>, domain: bytes,
                                          e: Envelope)
    requires |runs| <= |all| && all != []
    requires forall i :: 0 <= i < |runs| ==> Climbs(runs[i], domain, all[i]) && AllFaithful(runs[i], e)
    requires forall i :: 0 <= i < |runs| ==> !Stopped(runs[i])
    ensures var whole := HostRuns(world, runs, all[|runs|..], domain, e);
            InTurn(whole, domain, all) && forall i :: 0 <= i < |whole| ==> AllFaithful(whole[i], e)
    decreases |all| - |runs|
  {
    hide HostRun, HostRuns, Climbs, AllFaithful, Stopped, Flat;
    var hosts := all[|runs|..];
    HostRunsStep(world, runs, hosts, domain, e);
    if hosts != [] {
      var run := HostRun(world, Flat(runs), hosts[0], domain, e);
      HostRunClimbs(world, Flat(runs), hosts[0], domain, e);
      assert hosts[1..] == all[|runs + [run]|..];
      if !Stopped(run) {
        HostRunsInTurn(world, runs + [run], all, domain, e);
      }
    }
  }

  lemma RunsFinished(world: World, address: Address, failover: seq<bytes>, e: Envelope)
    ensures var runs := Runs(world, address, failover, e);
            Finished(runs, address, failover) && Complete(runs)
            && forall i :: 0 <= i < |runs| ==> AllFaithful(runs[i], e)
  {
    hide Made, HostRuns, Climbs, Faithful;
    if address.domain == LOCALHOST {
      MadeFaithful(world, [], Call(Plain, address.mxHost, 25, []), e);
    } else {
      var hosts := Hosts(address, failover);
      assert hosts[0..] == hosts;
      HostRunsInTurn(world, [], hosts, address.domain, e);
      var runs := Runs(world, address, failover, e);
      ClimbsSome(runs[|runs| - 1], address.domain, hosts[|runs| - 1]);
    }
  }

  /**
   One destination, any list of mail hosts and any servers behind it: after a final 250 or a 5xx nothing is tried,
   at most one attempt gets a final 250, failure is recorded exactly when none did, and there are at most five
   attempts for each host.
   */
  lemma DestinationFacts(world: World, address: Address, failover: seq<bytes>, lookupErr: Option<Error>, e: Envelope)
    ensures var runs := Runs(world, address, failover, e);
            var log := Flat(runs);
            log != [] && StopsAtMostLast(log) && |log| <= 5 * (if failover == [] then 1 else |failover|)
            && Deliveries(log) <= 1
            && (Result(lookupErr, runs) == None <==> Deliveries(log) == 1)
  {
    hide Runs, Climbs, Flat, AllFaithful, Deliveries, Stops;
    var runs := Runs(world, address, failover, e);
    RunsFinished(world, address, failover, e);
    if address.domain == LOCALHOST {
      assert |Calls(runs[0])| == 1;
    } else {
      forall i | 0 <= i < |runs|
        ensures 1 <= |runs[i]| <= 5 && StopsAtMostLast(runs[i])
      {
        ClimbsSome(runs[i], address.domain, Hosts(address, failover)[i]);
      }
    }
    FlatFacts(runs, e);
    DeliveredOnce(Flat(runs), e);
  }

  // ---- What goes out in clear

  /** The last way into a host is all that is left: every way with TLS was tried on it and failed, none with a 5xx. */
  ghost predicate OnlyClearLeft(run: seq<Attempt>, j: nat, host: bytes)
    requires j < |run|
  {
    3 <= j == |run| - 1 && run[0].call == Call(WithStartTls, host, 25, [])
    && run[j - 2].call == Call(WithTls, host, 587, []) && run[j - 1].call == Call(WithTls, host, 465, [])
    && forall m :: 0 <= m < j ==> run[m].call.way != Plain && !Refused(run[m].trace) && !Taken(run[m].trace)
  }

  lemma ClimbsPlainIff(run: seq<Attempt>, j: nat, domain: bytes, host: bytes, e: Envelope)
    requires Climbs(run, domain, host) && j < |run| && AllFaithful(run, e)
    ensures run[j].call.way == Plain <==> OnlyClearLeft(run, j, host)
  {
    hide OtherName, Stops, Faithful, Taken, Refused;
    var ladder := Ladder(host, OtherName(domain, run[0].err));
    assert forall m :: 0 <= m < |run| ==> Calls(run)[m] == run[m].call && run[m].call == ladder[m];
    assert forall m :: 0 <= m < |ladder| ==> (ladder[m].way == Plain <==> m == |ladder| - 1);
    forall m | 0 <= m < |run|
      ensures Stops(run[m]) <==> Taken(run[m].trace) || Refused(run[m].trace)
    {
      StopsIff(run[m], e);
    }
  }

  /**
   Envelope and content of an attempt go out in clear exactly for the destination "localhost" and on the last way
   into a host, after every way with TLS failed on it without a 5xx.
   */
  lemma InClearIff(world: World, address: Address, failover: seq<bytes>, e: Envelope, i: nat, j: nat, k: nat)
    requires var runs := Runs(world, address, failover, e);
             i < |runs| && j < |runs[i]| && k < |runs[i][j].trace|
             && var c := runs[i][j].trace[k].command; (c.MailFrom? || c.RcptTo? || c.Data? || c.Content?)
    ensures var runs := Runs(world, address, failover, e);
            !runs[i][j].trace[k].tls
            <==> address.domain == Ascii("localhost")
                 || (if failover == [] then i == 0 && OnlyClearLeft(runs[i], j, address.mxHost)
                     else i < |failover| && OnlyClearLeft(runs[i], j, failover[i]))
  {
    hide Runs, Climbs, OnlyClearLeft, Reported;
    Spelling();
    var runs := Runs(world, address, failover, e);
    RunsFinished(world, address, failover, e);
    assert Faithful(runs[i][j], e);
    if address.domain == LOCALHOST {
      assert Calls(runs[0])[0] == runs[0][0].call;
      assert |runs[0]| == |Calls(runs[0])|;
    } else {
      ClimbsPlainIff(runs[i], j, address.domain, Hosts(address, failover)[i], e);
    }
  }

  // ---- In the terms of the dialogues

  lemma Spelling()
    ensures LOCALHOST == Ascii("localhost")
  {
  }

  /** The content was answered with 250. */
  predicate Taken(trace: seq<Step>) {
    exists i :: 0 <= i < |trace| && trace[i].command.Content? && trace[i].outcome.Reply? && trace[i].outcome.code == 250
  }

  /** An attempt stops the search exactly when its content was answered with 250 or the last word was a 5xx. */
  lemma StopsIff(a: Attempt, e: Envelope)
    requires Faithful(a, e)
    ensures Stops(a) <==> Taken(a.trace) || Refused(a.trace)
  {
    hide Monitor, Finals, Contents, Accepted, IsPermanentSmtpResponse;
    NilIffAccepted(a.job, a.trace, a.err);
  }

  /** Every attempt of the run is on this host, and only the last may have stopped the search. */
  ghost predicate OnHost(run: seq<Attempt>, host: bytes) {
    run != [] && forall j :: 0 <= j < |run| ==>
                   run[j].call.host == host
                   && (j < |run| - 1 ==> !Taken(run[j].trace) && !Refused(run[j].trace))
  }

  ghost predicate TakenInTurn(runs: seq<seq<Attempt>>, hosts: seq<bytes>) {
    0 < |runs| <= |hosts|
    && (forall i :: 0 <= i < |runs| ==> OnHost(runs[i], hosts[i]))
    && (forall i :: 0 <= i < |runs| - 1 ==> !Settled(runs[i]))
    && (|runs| == |hosts| || Settled(runs[|runs| - 1]))
  }

  /** The last attempt of the run delivered the message or was refused with a 5xx. */
  predicate Settled(run: seq<Attempt>) {
    run != [] && (Taken(run[|run| - 1].trace) || Refused(run[|run| - 1].trace))
  }

  /**
   The hosts of the list are taken in turn, the next one whenever no server took the message or refused it for good;
   only that leaves a host of the list untried.
   */
  lemma EachHostTried(world: World, address: Address, failover: seq<bytes>, e: Envelope)
    requires address.domain != Ascii("localhost")
    ensures TakenInTurn(Runs(world, address, failover, e), if failover == [] then [address.mxHost] else failover)
  {
    hide Runs, Climbs, Taken, Refused, Faithful, Stops;
    Spelling();
    var runs := Runs(world, address, failover, e);
    RunsFinished(world, address, failover, e);
    var hosts := Hosts(address, failover);
    forall i | 0 <= i < |runs|
      ensures OnHost(runs[i], hosts[i]) && (Stopped(runs[i]) <==> Settled(runs[i]))
    {
      var run := runs[i];
      ClimbsSome(run, address.domain, hosts[i]);
      forall j | 0 <= j < |run|
        ensures Stops(run[j]) <==> Taken(run[j].trace) || Refused(run[j].trace)
      {
        StopsIff(run[j], e);
      }
    }
  }

  /** Each host was tried in turn and none took the message, unless the last one refused it with a 5xx. */
  ghost predicate AllTried(runs: seq<seq<Attempt>>, hosts: seq<bytes>) {
    TakenInTurn(runs, hosts)
    && (forall i, j :: 0 <= i < |runs| && 0 <= j < |runs[i]| ==> !Taken(runs[i][j].trace))
  }

  /** The failure recorded is the cause of the last attempt's error. */
  ghost predicate FailedAfter(runs: seq<seq<Attempt>>, lookupErr: Option<Error>, failure: Option<Error>) {
    Complete(runs)
    && var last := runs[|runs| - 1][|runs[|runs| - 1]| - 1];
       last.err.Some? && failure == Some(DeliveryReply.FailureCause(lookupErr, last.err.value))
  }

  /** A destination fails only when every host was tried, and with the cause of the last attempt's error. */
  lemma FailsAllTried(world: World, address: Address, failover: seq<bytes>, lookupErr: Option<Error>, e: Envelope)
    requires address.domain != Ascii("localhost") && Result(lookupErr, Runs(world, address, failover, e)).Some?
    ensures var runs := Runs(world, address, failover, e);
            AllTried(runs, if failover == [] then [address.mxHost] else failover)
            && FailedAfter(runs, lookupErr, Result(lookupErr, runs))
  {
    hide Runs, Taken, Refused, Deliveries, Flat, StopsAtMostLast, TakenInTurn, DeliveryReply.FailureCause;
    var runs := Runs(world, address, failover, e);
    EachHostTried(world, address, failover, e);
    DestinationFacts(world, address, failover, lookupErr, e);
    DeliveriesSome(Flat(runs));
    FlatSome(runs);
  }

  /**
   The ways into one host: STARTTLS on port 25, the same for the name a certificate proved instead, TLS on port 587,
   TLS on port 465, port 25 in clear; all of them unless the message is taken or refused for good before.
   */
  lemma WaysInto(world: World, before: seq<Attempt>, host: bytes, domain: bytes, e: Envelope)
    ensures var run := HostRun(world, before, host, domain, e);
            run != []
            && var name := OtherName(domain, run[0].err);
            var again := if name.Some? then 1 else 0;
            |run| <= 4 + again
            && (forall j :: 0 <= j < |run| ==>
                  run[j].call == if j == 0 then Call(WithStartTls, host, 25, [])
                                 else if j == again then Call(WithStartTls, host, 25, name.value)
                                 else if j == again + 1 then Call(WithTls, host, 587, [])
                                 else if j == again + 2 then Call(WithTls, host, 465, [])
                                 else Call(Plain, host, 25, []))
            && (|run| == 4 + again || Taken(run[|run| - 1].trace) || Refused(run[|run| - 1].trace))
  {
    hide HostRun, OtherName, Taken, Refused, Faithful, Stops;
    HostRunClimbs(world, before, host, domain, e);
    var run := HostRun(world, before, host, domain, e);
    StopsIff(run[|run| - 1], e);
    assert forall m :: 0 <= m < |run| ==> Calls(run)[m] == run[m].call;
  }

  /** A second name is asked for exactly when a certificate failed for its host name and lists its names. */
  lemma SecondName(domain: bytes, text: bytes, detail: bytes, names: Option<seq<bytes>>)
    ensures var hostname := Error(HostnameError(names), detail, []);
            OtherName(domain, Some(Error(CertificateError, text, [hostname])))
            == if names.Some? then Some(DomainMatch.Chosen(domain, names.value)) else None
    ensures OtherName(domain, None) == None
    ensures forall err :: !Contains(err, AsCertificate) ==> OtherName(domain, Some(err)) == None
  {
    hide DomainMatch.Chosen;
    var hostname := Error(HostnameError(names), detail, []);
    assert As(hostname, AsHostname) == Some(hostname);
    assert AsAny([hostname], AsHostname) == Some(hostname);
    forall err | !Contains(err, AsCertificate)
      ensures OtherName(domain, Some(err)) == None
    {
      AsIff(err, AsCertificate);
    }
  }

  /** The way decides the TLS of an attempt: from the first byte, after a 220 to STARTTLS, or never. */
  lemma WayUses(world: World, log: seq<Attempt>, call: Call, e: Envelope)
    ensures var a := Made(world, log, call, e);
            a.call == call && a.job.from == e.from && a.job.to == e.to && a.job.msg == e.data
            && forall i :: 0 <= i < |a.trace| ==>
                 (a.trace[i].tls <==> match call.way
                                      case WithTls => true
                                      case WithStartTls => TlsBegun(a.trace, i)
                                      case Plain => false)
                 && (a.trace[i].command.Connect? ==> a.trace[i].command.addr == call.host)
                 && (a.trace[i].command.Ehlo? ==> a.trace[i].command.name == e.fromDomain)
                 && (a.trace[i].command.StartTls? ==> call.way == WithStartTls)
  {
    hide Dialogue, Verdict;
    DialogueOnTheWire(world(log, call), PlanFor(call, e));
  }
}
