/** The client side of SMTP: one delivery attempt as a dialogue of commands and replies. */
module SmtpSession {
  import opened Bytes
  import opened ErrorTree
  import opened Substrings
  import Strings

  // ---- The dialogue

  /** What the client does on the wire. Connecting ends with the server's greeting, content with its final reply. */
  datatype Command =
    | Connect(addr: bytes)
    | Ehlo(name: bytes)
    | Helo(name: bytes)
    | StartTls
    | MailFrom(from: bytes, eightBit: bool, utf8: bool)
    | RcptTo(to: bytes)
    | Data
    | Content(msg: bytes)
    | Quit

  /** Errors of sockets and of TLS; none of them is, or wraps, a reply of the server. */
  type TransportError = e: Error | As(e, AsProtocol) == None
    witness Error(OtherError, [], [])

  /** A complete reply, its text split into lines, or a failure below the protocol. */
  datatype Outcome = Reply(code: int, lines: seq<bytes>) | Failed(error: TransportError)

  /** One command, what came of it, and whether it went over TLS. */
  datatype Step = Step(command: Command, outcome: Outcome, tls: bool)

  /** A server and the network before it: any reaction to the next command of any dialogue. */
  type Peer = (seq<Step>, Command) -> Outcome

  /** textproto's ReadResponse: an expected code of two digits stands for a class of ten. */
  predicate Expected(want: int, code: int) {
    if 10 <= want < 100 then code / 10 == want else code == want
  }

  /** textproto.Error: the code, and the lines of the reply with line feeds between them. */
  function ReplyText(code: int, lines: seq<bytes>): bytes {
    [0x30 + code / 100 % 10, 0x30 + code / 10 % 10, 0x30 + code % 10, 0x20] + Strings.Joined(lines, [0x0A])
  }

  /** Three digits, a space and the lines. */
  lemma ReplyTextIs(a: int, b: int, c: int, lines: seq<bytes>)
    requires 0 <= a < 10 && 0 <= b < 10 && 0 <= c < 10
    ensures ReplyText(100 * a + 10 * b + c, lines)
            == [0x30 + a, 0x30 + b, 0x30 + c] + ([0x20] + Strings.Joined(lines, [10]))
  {
    var code := 100 * a + 10 * b + c;
    assert code / 100 % 10 == a && code / 10 % 10 == b && code % 10 == c;
  }

  /** The error a command returns. */
  function Rejection(want: int, outcome: Outcome): (r: Option<Error>)
    ensures r == None <==> outcome.Reply? && Expected(want, outcome.code)
    ensures r.Some? && As(r.value, AsProtocol).Some? ==> r.value.inner == [] && r.value.kind.ProtocolError?
  {
    match outcome
    case Failed(e) => Some(e)
    case Reply(code, lines) =>
      if Expected(want, code) then None
      else Some(Error(ProtocolError(code), ReplyText(code, lines), []))
  }

  // ---- The order RFC 5321 and RFC 3207 prescribe, as a monitor of dialogues

  /** What is to be sent; a sealed job may show envelope and content only under TLS. */
  datatype Job = Job(from: bytes, to: seq<bytes>, msg: bytes, sealed: bool)

  predicate Sensitive(c: Command) { c.MailFrom? || c.RcptTo? || c.Data? || c.Content? }

  datatype Phase =
    | Start
    | Opened                        // greeted with 220
    | EhloRefused                   // HELO may follow
    | Ready(ext: Option<set<bytes>>)
    | Secured                       // TLS is on, a new EHLO is due
    | Transaction(accepted: nat)    // MAIL and so many recipients accepted
    | Invited                       // 354
    | Delivered                     // the final 250
    | Closed
    | Rejected                      // a command was not accepted: nothing may follow
    | Violation

  const EIGHT_BIT: bytes := [56, 66, 73, 84, 77, 73, 77, 69]        // "8BITMIME"
  const SMTP_UTF8: bytes := [83, 77, 84, 80, 85, 84, 70, 56]        // "SMTPUTF8"
  const START_TLS: bytes := [83, 84, 65, 82, 84, 84, 76, 83]        // "STARTTLS"

  predicate Offers(ext: Option<set<bytes>>, keyword: bytes) { ext.Some? && keyword in ext.value }

  /** The keyword of an EHLO line. */
  function Keyword(line: bytes): bytes { line[..IndexOf(line, 0x20)] }

  /** The extensions an EHLO reply lists: its first line is the greeting. */
  function Extensions(lines: seq<bytes>): set<bytes> {
    set i | 1 <= i < |lines| :: Keyword(lines[i])
  }

  predicate Says(outcome: Outcome, code: int) { outcome.Reply? && Expected(code, outcome.code) }

  function Next(job: Job, p: Phase, s: Step): Phase {
    if job.sealed && !s.tls && Sensitive(s.command) then Violation else
    match (p, s.command)
    case (Start, Connect(_)) => if Says(s.outcome, 220) then Opened else Rejected
    case (Opened, Ehlo(_)) =>
      if Says(s.outcome, 250) then Ready(Some(Extensions(s.outcome.lines))) else EhloRefused
    case (EhloRefused, Helo(_)) => if Says(s.outcome, 250) then Ready(None) else Rejected
    case (Ready(ext), StartTls) =>
      if s.tls || !Offers(ext, START_TLS) then Violation
      else if Says(s.outcome, 220) then Secured else Rejected
    case (Secured, Ehlo(_)) =>
      if !s.tls then Violation
      else if Says(s.outcome, 250) then Ready(Some(Extensions(s.outcome.lines))) else Rejected
    case (Ready(ext), MailFrom(from, eightBit, utf8)) =>
      if from != job.from || eightBit != Offers(ext, EIGHT_BIT) || utf8 != Offers(ext, SMTP_UTF8) then Violation
      else if Says(s.outcome, 250) then Transaction(0) else Rejected
    case (Transaction(k), RcptTo(to)) =>
      if k >= |job.to| || to != job.to[k] then Violation
      else if Says(s.outcome, 25) then Transaction(k + 1) else Rejected
    case (Transaction(k), Data) =>
      if k != |job.to| then Violation else if Says(s.outcome, 354) then Invited else Rejected
    case (Invited, Content(msg)) =>
      if msg != job.msg then Violation else if Says(s.outcome, 250) then Delivered else Rejected
    case (Delivered, Quit) => Closed
    case _ => Violation
  }

  /** Where a dialogue has got to. */
  function Monitor(job: Job, trace: seq<Step>): Phase
    decreases |trace|
  {
    if trace == [] then Start
    else Next(job, Monitor(job, trace[..|trace| - 1]), trace[|trace| - 1])
  }

  lemma MonitorStep(job: Job, trace: seq<Step>, s: Step)
    ensures Monitor(job, trace + [s]) == Next(job, Monitor(job, trace), s)
  {
    assert (trace + [s])[..|trace|] == trace;
  }

  /** The loop of ehlo over the lines after the first. */
  method ParseExtensions(lines: seq<bytes>) returns (ext: set<bytes>)
    ensures ext == Extensions(lines)
  {
    ext := {};
    NoExtensions(lines);
    if |lines| > 1 {
      for i := 1 to |lines|
        invariant ext == Extensions(lines[..i])
      {
        MoreExtensions(lines, i);
        ext := ext + {Keyword(lines[i])};
      }
      assert lines[..|lines|] == lines;
    }
  }

  /** A protocol error is the last reply of the server, unwrapped. */
  ghost predicate Cause(trace: seq<Step>, e: Error) {
    As(e, AsProtocol).Some?
    ==> trace != [] && e.inner == [] && e.kind.ProtocolError?
        && trace[|trace| - 1].outcome.Reply? && trace[|trace| - 1].outcome.code == e.kind.code
  }

  // ---- What an attempt says, as a function of the server

  predicate ValidLine(line: bytes) { 0x0A !in line && 0x0D !in line }

  predicate ValidLines(from: bytes, to: seq<bytes>) {
    ValidLine(from) && forall i :: 0 <= i < |to| ==> ValidLine(to[i])
  }

  /** A job, where to connect, the name to greet with, whether TLS is on from the start or has to be asked for. */
  datatype Plan = Plan(job: Job, addr: bytes, localName: bytes, startTls: bool, tls: bool)

  /** The next command in a phase; None when the attempt is over. */
  function NextCommand(plan: Plan, p: Phase, tls: bool): Option<Command> {
    match p
    case Start => if ValidLines(plan.job.from, plan.job.to) then Some(Connect(plan.addr)) else None
    case Opened | Secured => Some(Ehlo(plan.localName))
    case EhloRefused => Some(Helo(plan.localName))
    case Ready(ext) =>
      if !plan.startTls || tls then
        Some(MailFrom(plan.job.from, Offers(ext, EIGHT_BIT), Offers(ext, SMTP_UTF8)))
      else if Offers(ext, START_TLS) then Some(StartTls)
      else None
    case Transaction(k) => Some(if k < |plan.job.to| then RcptTo(plan.job.to[k]) else Data)
    case Invited => Some(Content(plan.job.msg))
    case Delivered => Some(Quit)
    case _ => None
  }

  predicate TlsAfter(tls: bool, s: Step) { tls || (s.command.StartTls? && Says(s.outcome, 220)) }

  /** How far a phase is from the end. */
  function Rank(plan: Plan, p: Phase, tls: bool): nat {
    var n := |plan.job.to|;
    match p
    case Start => n + 10
    case Opened => n + 9
    case EhloRefused => n + 8
    case Ready(_) => if plan.startTls && !tls then n + 7 else n + 5
    case Secured => n + 6
    case Transaction(k) => if k < n then n - k + 4 else 4
    case Invited => 3
    case Delivered => 2
    case _ => 0
  }

  lemma RankFalls(plan: Plan, p: Phase, s: Step)
    requires NextCommand(plan, p, s.tls) == Some(s.command)
    ensures Rank(plan, Next(plan.job, p, s), TlsAfter(s.tls, s)) < Rank(plan, p, s.tls)
  {
    hide Extensions;
  }

  /** The rest of a dialogue: each command is answered by the server that was told everything before it. */
  function Play(peer: Peer, plan: Plan, p: Phase, tls: bool, trace: seq<Step>): seq<Step>
    decreases Rank(plan, p, tls)
  {
    match NextCommand(plan, p, tls)
    case None => trace
    case Some(command) =>
      var s := Step(command, peer(trace, command), tls);
      RankFalls(plan, p, s);
      Play(peer, plan, Next(plan.job, p, s), TlsAfter(tls, s), trace + [s])
  }

  /** What is said in an attempt. */
  function Dialogue(peer: Peer, plan: Plan): seq<Step> { Play(peer, plan, Start, plan.tls, []) }

  /** The code a command waits for. */
  function Wanted(command: Command): int {
    match command
    case Connect(_) | StartTls => 220
    case RcptTo(_) => 25
    case Data => 354
    case Quit => 221
    case _ => 250
  }

  /** The replies that let a command through, by sections 4.2 and 4.3.2 of RFC 5321 and section 4 of RFC 3207. */
  predicate Positive(command: Command, outcome: Outcome) {
    outcome.Reply?
    && match command
       case Connect(_) => outcome.code == 220
       case Ehlo(_) => outcome.code == 250
       case Helo(_) => outcome.code == 250
       case StartTls => outcome.code == 220
       case MailFrom(_, _, _) => outcome.code == 250
       case RcptTo(_) => 250 <= outcome.code <= 259
       case Data => outcome.code == 354
       case Content(_) => outcome.code == 250
       case Quit => outcome.code == 221
  }

  /** A command goes through on exactly these replies; any other reply is its error, with its code. */
  lemma RejectionIff(command: Command, outcome: Outcome)
    ensures Rejection(Wanted(command), outcome) == None <==> Positive(command, outcome)
    ensures outcome.Reply? && !Positive(command, outcome)
            ==> Rejection(Wanted(command), outcome).value.kind == ProtocolError(outcome.code)
  {
  }

  const LINE_ERROR := Error(OtherError, [], [])
  const NO_STARTTLS_ERROR := Error(OtherError, [], [])

  /** What an attempt returns for what was said: the error of the command that was refused, if one was. */
  function Verdict(plan: Plan, trace: seq<Step>): Option<Error> {
    if trace == [] then Some(LINE_ERROR)
    else
      match Monitor(plan.job, trace)
      case Closed => None
      case Rejected => Rejection(Wanted(trace[|trace| - 1].command), trace[|trace| - 1].outcome)
      case _ => Some(NO_STARTTLS_ERROR)
  }

  // ---- The client

  class Client {
    const peer: Peer
    const localName: bytes
    ghost const plan: Plan
    var tls: bool
    var ext: Option<set<bytes>>
    var didHello: bool
    var helloError: Option<Error>
    /** Every command so far with its outcome. */
    var trace: seq<Step>

    ghost function At(): Phase
      reads this`trace
    {
      Monitor(plan.job, trace)
    }

    /** The dialogue this one is going to be. */
    ghost function Course(): seq<Step>
      reads this`trace, this`tls
    {
      Play(peer, plan, At(), tls, trace)
    }

    constructor (peer: Peer, localName: bytes, tls: bool, ghost plan: Plan)
      requires localName == plan.localName
      ensures this.peer == peer && this.localName == localName && this.plan == plan && this.tls == tls
      ensures trace == [] && !didHello && helloError == None && ext == None
    {
      this.peer, this.localName, this.tls, this.plan := peer, localName, tls, plan;
      trace, didHello, helloError, ext := [], false, None, None;
    }

    /** cmd, with the command that is due. */
    method Cmd(want: int, command: Command) returns (lines: seq<bytes>, err: Option<Error>)
      requires NextCommand(plan, At(), tls) == Some(command) && want == Wanted(command)
      modifies this`trace
      ensures var s := Step(command, peer(old(trace), command), tls);
              trace == old(trace) + [s] && err == Rejection(want, s.outcome)
              && At() == Next(plan.job, old(At()), s) && (err == None ==> lines == s.outcome.lines)
              && old(Course()) == Play(peer, plan, At(), TlsAfter(tls, s), trace)
      ensures At() == Rejected ==> err == Verdict(plan, trace)
    {
      var s := Step(command, peer(trace, command), tls);
      MonitorStep(plan.job, trace, s);
      trace := trace + [s];
      err := Rejection(want, s.outcome);
      lines := if s.outcome.Reply? then s.outcome.lines else [];
    }

    /** HELO or EHLO went through. */
    ghost predicate Greeted()
      reads this
    {
      didHello && helloError == None && At() == Ready(ext) && localName == plan.localName
    }

    /** A failed command ends the dialogue, and its error is the verdict. */
    ghost predicate Ended(err: Option<Error>)
      reads this
    {
      err.Some? ==> At() == Rejected && err == Verdict(plan, trace)
    }

    /** ehlo. */
    method SayEhlo() returns (err: Option<Error>)
      requires (At() == Opened || (At() == Secured && tls)) && localName == plan.localName
      modifies this`trace, this`ext
      ensures Course() == old(Course())
      ensures if err == None then ext.Some? && At() == Ready(ext)
              else ext == old(ext) && (if old(At()) == Opened then At() == EhloRefused else Ended(err))
    {
      hide Monitor, Extensions, Play, Verdict;
      var lines;
      lines, err := Cmd(250, Ehlo(localName));
      if err.Some? {
        return;
      }
      var found := ParseExtensions(lines);
      ext := Some(found);
    }

    /** helo. */
    method SayHelo() returns (err: Option<Error>)
      requires At() == EhloRefused && localName == plan.localName
      modifies this`trace, this`ext
      ensures Course() == old(Course())
      ensures ext == None && (if err == None then At() == Ready(None) else Ended(err))
    {
      hide Monitor, Play, Verdict;
      ext := None;
      var lines;
      lines, err := Cmd(250, Helo(localName));
    }

    /** hello: EHLO, or HELO where EHLO is not understood, once. */
    method Hello() returns (err: Option<Error>)
      requires if didHello then Greeted() else At() == Opened && helloError == None && localName == plan.localName
      modifies this`trace, this`ext, this`didHello, this`helloError
      ensures err == None ==> Greeted()
      ensures Ended(err) && Course() == old(Course())
      ensures old(didHello) ==> trace == old(trace) && ext == old(ext) && err == None
    {
      hide Monitor, Play, Verdict;
      if !didHello {
        didHello := true;
        err := SayEhlo();
        if err.Some? {
          helloError := SayHelo();
        }
      }
      err := helloError;
    }

    /** StartTLS. The handshake happens under the EHLO that follows. */
    method StartTLS() returns (err: Option<Error>)
      requires Greeted() && Offers(ext, START_TLS) && plan.startTls && !tls
      modifies this
      ensures err == None ==> Greeted() && tls
      ensures Ended(err) && Course() == old(Course())
    {
      hide Monitor, Extensions, Play, Verdict;
      err := Hello();
      var lines;
      lines, err := Cmd(220, StartTls);
      if err.Some? {
        return;
      }
      tls := true;
      err := SayEhlo();
    }

    /** Mail, with the parameters of the extensions the last greeting listed. */
    method Mail(from: bytes) returns (err: Option<Error>)
      requires Greeted() && plan.job.from == from && (plan.startTls ==> tls) && (plan.job.sealed ==> tls)
      modifies this
      ensures err == None ==> At() == Transaction(0)
      ensures Ended(err) && tls == old(tls) && Course() == old(Course())
    {
      hide Monitor, Extensions, Play, Verdict;
      err := Hello();
      var eightBit := ext.Some? && EIGHT_BIT in ext.value;
      var utf8 := ext.Some? && SMTP_UTF8 in ext.value;
      var lines;
      lines, err := Cmd(250, MailFrom(from, eightBit, utf8));
    }

    /** Rcpt: 250 to 259 accept the recipient. */
    method Rcpt(to: bytes, ghost k: nat) returns (err: Option<Error>)
      requires At() == Transaction(k) && k < |plan.job.to| && plan.job.to[k] == to && (plan.job.sealed ==> tls)
      modifies this
      ensures err == None ==> At() == Transaction(k + 1)
      ensures Ended(err) && tls == old(tls) && Course() == old(Course())
    {
      hide Monitor, Play, Verdict;
      var lines;
      lines, err := Cmd(25, RcptTo(to));
    }

    /** Data and finishDelivery: the reply to the content decides; QUIT is written and not waited for. */
    method Finish(msg: bytes) returns (err: Option<Error>)
      requires At() == Transaction(|plan.job.to|) && plan.job.msg == msg && (plan.job.sealed ==> tls)
      modifies this
      ensures if err == None then At() == Closed else Ended(err)
      ensures tls == old(tls) && Course() == old(Course())
    {
      hide Monitor, Play, Verdict;
      var lines;
      lines, err := Cmd(354, Data);
      if err.Some? {
        return;
      }
      lines, err := Cmd(250, Content(msg));
      if err.Some? {
        return;
      }
      var _, _ := Cmd(221, Quit);
    }

    /** The part the three ways of sending share. */
    method Transact(from: bytes, to: seq<bytes>, msg: bytes) returns (err: Option<Error>)
      requires Greeted() && plan.job == Job(from, to, msg, plan.job.sealed)
      requires (plan.startTls ==> tls) && (plan.job.sealed ==> tls)
      modifies this
      ensures if err == None then At() == Closed else Ended(err)
      ensures tls == old(tls) && Course() == old(Course())
    {
      hide Monitor, Play, Verdict;
      err := Mail(from);
      if err.Some? {
        return;
      }
      for i := 0 to |to|
        invariant At() == Transaction(i) && tls == old(tls) && Course() == old(Course())
      {
        err := Rcpt(to[i], i);
        if err.Some? {
          return;
        }
      }
      err := Finish(msg);
    }
  }

  lemma NoExtensions(lines: seq<bytes>)
    ensures |lines| <= 1 ==> Extensions(lines) == {}
    ensures |lines| > 1 ==> Extensions(lines[..1]) == {}
  {
  }

  lemma MoreExtensions(lines: seq<bytes>, i: nat)
    requires 1 <= i < |lines|
    ensures Extensions(lines[..i + 1]) == Extensions(lines[..i]) + {Keyword(lines[i])}
  {
    var more, less := lines[..i + 1], lines[..i];
    forall k
      ensures k in Extensions(more) <==> k in Extensions(less) || k == Keyword(lines[i])
    {
      if k in Extensions(less) {
        var j :| 1 <= j < i && k == Keyword(less[j]);
        assert more[j] == less[j];
      }
      if k in Extensions(more) {
        var j :| 1 <= j < i + 1 && k == Keyword(more[j]);
        assert j < i ==> less[j] == more[j];
      }
      assert more[i] == lines[i];
    }
  }

  // ---- One attempt

  /** validateLine on the sender and on every recipient. */
  method Validate(from: bytes, to: seq<bytes>) returns (ok: bool)
    ensures ok == ValidLines(from, to)
  {
    if !ValidLine(from) {
      return false;
    }
    for i := 0 to |to|
      invariant forall j :: 0 <= j < i ==> ValidLine(to[j])
    {
      if !ValidLine(to[i]) {
        return false;
      }
    }
    ok := true;
  }

  /** Dial or DialTls, and NewClient. */
  method Dial(peer: Peer, addr: bytes, localName: bytes, tls: bool, ghost plan: Plan)
    returns (c: Client, err: Option<Error>)
    requires ValidLines(plan.job.from, plan.job.to)
    requires plan == Plan(plan.job, addr, localName, plan.startTls, tls)
    ensures fresh(c) && c.peer == peer && c.plan == plan && c.tls == tls && c.Course() == Dialogue(peer, plan)
    ensures c.localName == plan.localName && !c.didHello && c.helloError == None
    ensures if err == None then c.At() == Opened else c.Ended(err)
  {
    hide Monitor, Play, Verdict, ValidLines;
    c := new Client(peer, localName, tls, plan);
    MonitorStart(plan.job);
    var lines;
    lines, err := c.Cmd(220, Connect(addr));
  }

  lemma MonitorStart(job: Job)
    ensures Monitor(job, []) == Start
  {
  }

  lemma NothingSaid(peer: Peer, plan: Plan)
    requires !ValidLines(plan.job.from, plan.job.to)
    ensures Dialogue(peer, plan) == [] && Verdict(plan, []) == Some(LINE_ERROR)
  {
  }

  /** The end of an attempt. */
  lemma PlayOver(peer: Peer, plan: Plan, tls: bool, trace: seq<Step>)
    requires NextCommand(plan, Monitor(plan.job, trace), tls) == None
    ensures Play(peer, plan, Monitor(plan.job, trace), tls, trace) == trace
    ensures trace != [] && Monitor(plan.job, trace) == Closed ==> Verdict(plan, trace) == None
    ensures trace != [] && Monitor(plan.job, trace).Ready? ==> Verdict(plan, trace) == Some(NO_STARTTLS_ERROR)
  {
    hide Monitor;
  }

  /** SendMail: STARTTLS on the port of `addr`, or nothing. */
  method SendMail(peer: Peer, addr: bytes, localName: bytes, from: bytes, to: seq<bytes>, msg: bytes)
    returns (err: Option<Error>, trace: seq<Step>)
    ensures var plan := Plan(Job(from, to, msg, true), addr, localName, true, false);
            trace == Dialogue(peer, plan) && err == Verdict(plan, trace)
  {
    hide Monitor, Play, Verdict;
    ghost var plan := Plan(Job(from, to, msg, true), addr, localName, true, false);
    MonitorStart(plan.job);
    var valid := Validate(from, to);
    if !valid {
      NothingSaid(peer, plan);
      return Some(LINE_ERROR), [];
    }
    var c;
    c, err := Dial(peer, addr, localName, false, plan);
    if err == None {
      err := c.Hello();
    }
    if err == None && !Offers(c.ext, START_TLS) {
      err := Some(NO_STARTTLS_ERROR);
    } else {
      if err == None {
        err := c.StartTLS();
      }
      if err == None {
        err := c.Transact(from, to, msg);
      }
    }
    trace := c.trace;
    PlayOver(peer, plan, c.tls, trace);
  }

  /** SendMailWithTls: TLS from the first byte. */
  method SendMailWithTls(peer: Peer, addr: bytes, localName: bytes, from: bytes, to: seq<bytes>, msg: bytes)
    returns (err: Option<Error>, trace: seq<Step>)
    ensures var plan := Plan(Job(from, to, msg, true), addr, localName, false, true);
            trace == Dialogue(peer, plan) && err == Verdict(plan, trace)
  {
    err, trace := SendPlainly(peer, addr, localName, from, to, msg, true);
  }

  /** SendMailUnsafe: no TLS. */
  method SendMailUnsafe(peer: Peer, addr: bytes, localName: bytes, from: bytes, to: seq<bytes>, msg: bytes)
    returns (err: Option<Error>, trace: seq<Step>)
    ensures var plan := Plan(Job(from, to, msg, false), addr, localName, false, false);
            trace == Dialogue(peer, plan) && err == Verdict(plan, trace)
  {
    err, trace := SendPlainly(peer, addr, localName, from, to, msg, false);
  }

  /** The text the last two share. */
  method SendPlainly(peer: Peer, addr: bytes, localName: bytes, from: bytes, to: seq<bytes>, msg: bytes, tls: bool)
    returns (err: Option<Error>, trace: seq<Step>)
    ensures var plan := Plan(Job(from, to, msg, tls), addr, localName, false, tls);
            trace == Dialogue(peer, plan) && err == Verdict(plan, trace)
  {
    hide Monitor, Play, Verdict;
    ghost var plan := Plan(Job(from, to, msg, tls), addr, localName, false, tls);
    MonitorStart(plan.job);
    var valid := Validate(from, to);
    if !valid {
      NothingSaid(peer, plan);
      return Some(LINE_ERROR), [];
    }
    var c;
    c, err := Dial(peer, addr, localName, tls, plan);
    if err == None {
      err := c.Hello();
    }
    if err == None {
      err := c.Transact(from, to, msg);
    }
    trace := c.trace;
    PlayOver(peer, plan, c.tls, trace);
  }

  // ---- What every attempt keeps to

  /** The server's last word was a 5xx; what it says to QUIT is not waited for. */
  predicate Refused(trace: seq<Step>) {
    trace != [] && trace[|trace| - 1].outcome.Reply? && 500 <= trace[|trace| - 1].outcome.code <= 599
    && !trace[|trace| - 1].command.Quit?
  }

  /**
   Nil exactly when the server took the message over, a permanent error exactly when its last word was a 5xx, and no
   step against the monitor.
   */
  ghost predicate Reported(job: Job, trace: seq<Step>, err: Option<Error>) {
    (err == None <==> Monitor(job, trace) == Closed)
    && Monitor(job, trace) != Violation && Monitor(job, trace) != Delivered
    && (err.Some? ==> Cause(trace, err.value))
    && (Refused(trace) <==> err.Some? && IsPermanentSmtpResponse(err.value))
    && (trace == [] <==> !ValidLines(job.from, job.to))
  }

  /** A sealed job is given a way to get TLS. */
  predicate Sealable(plan: Plan) { plan.job.sealed ==> plan.startTls || plan.tls }

  /** What holds between two commands of an attempt. */
  ghost predicate Underway(plan: Plan, p: Phase, tls: bool, trace: seq<Step>) {
    p == Monitor(plan.job, trace) && p != Violation && (p == Secured ==> tls)
    && (p.Transaction? || p.Invited? ==> plan.job.sealed ==> tls)
    && (p.Transaction? ==> p.accepted <= |plan.job.to|)
    && (p == Start <==> trace == []) && (p != Start ==> ValidLines(plan.job.from, plan.job.to))
    && (plan.tls ==> tls)
    && (p == Rejected ==> Rejection(Wanted(trace[|trace| - 1].command), trace[|trace| - 1].outcome).Some?)
  }

  lemma UnderwayStep(plan: Plan, p: Phase, s: Step, trace: seq<Step>)
    requires Sealable(plan) && Underway(plan, p, s.tls, trace) && NextCommand(plan, p, s.tls) == Some(s.command)
    ensures Underway(plan, Next(plan.job, p, s), TlsAfter(s.tls, s), trace + [s])
  {
    hide Extensions, ValidLines, Monitor;
    MonitorStep(plan.job, trace, s);
  }

  lemma {:induction false} PlayUnderway(peer: Peer, plan: Plan, p: Phase, tls: bool, trace: seq<Step>)
    requires Sealable(plan) && Underway(plan, p, tls, trace)
    ensures exists q, on :: Underway(plan, q, on, Play(peer, plan, p, tls, trace)) && NextCommand(plan, q, on) == None
    decreases Rank(plan, p, tls)
  {
    hide Underway, Rank;
    var next := NextCommand(plan, p, tls);
    if next.Some? {
      var s := Step(next.value, peer(trace, next.value), tls);
      RankFalls(plan, p, s);
      UnderwayStep(plan, p, s, trace);
      PlayUnderway(peer, plan, Next(plan.job, p, s), TlsAfter(tls, s), trace + [s]);
    }
  }

  /** Whatever the server does, an attempt keeps to the monitor and returns nil exactly on delivery. */
  lemma AttemptReported(peer: Peer, plan: Plan)
    requires Sealable(plan)
    ensures Reported(plan.job, Dialogue(peer, plan), Verdict(plan, Dialogue(peer, plan)))
  {
    hide Play, Monitor, ValidLines;
    MonitorStart(plan.job);
    PlayUnderway(peer, plan, Start, plan.tls, []);
    var q, on :| Underway(plan, q, on, Dialogue(peer, plan)) && NextCommand(plan, q, on) == None;
    PermanentIff(plan, q, on, Dialogue(peer, plan));
    hide IsPermanentSmtpResponse, Refused;
  }

  /** An attempt gives up only before it began, at a refused command, or where STARTTLS is needed and not offered. */
  lemma GivesUpOnly(peer: Peer, plan: Plan)
    requires Sealable(plan)
    ensures var trace := Dialogue(peer, plan);
            Verdict(plan, trace).Some?
            ==> !ValidLines(plan.job.from, plan.job.to)
                || (trace != [] && !Positive(trace[|trace| - 1].command, trace[|trace| - 1].outcome))
                || (plan.startTls && !plan.tls && Monitor(plan.job, trace).Ready?
                    && !Offers(Monitor(plan.job, trace).ext, START_TLS))
  {
    hide Play, Monitor, ValidLines;
    MonitorStart(plan.job);
    PlayUnderway(peer, plan, Start, plan.tls, []);
    forall c, o
      ensures Rejection(Wanted(c), o) == None <==> Positive(c, o)
    {
      RejectionIff(c, o);
    }
    var q, on :| Underway(plan, q, on, Dialogue(peer, plan)) && NextCommand(plan, q, on) == None;
  }

  /** Each outcome is the server's own answer to the command in the dialogue so far. */
  ghost predicate Answered(peer: Peer, trace: seq<Step>) {
    forall i :: 0 <= i < |trace| ==> trace[i].outcome == peer(trace[..i], trace[i].command)
  }

  lemma AnsweredStep(peer: Peer, trace: seq<Step>, s: Step)
    requires Answered(peer, trace) && s.outcome == peer(trace, s.command)
    ensures Answered(peer, trace + [s])
  {
    var more := trace + [s];
    forall i | 0 <= i < |more|
      ensures more[i].outcome == peer(more[..i], more[i].command)
    {
      assert more[..i] == if i < |trace| then trace[..i] else trace;
    }
  }

  lemma {:induction false} PlayAsks(peer: Peer, plan: Plan, p: Phase, tls: bool, trace: seq<Step>)
    requires Answered(peer, trace)
    ensures Answered(peer, Play(peer, plan, p, tls, trace))
    decreases Rank(plan, p, tls)
  {
    hide Rank, Answered;
    var next := NextCommand(plan, p, tls);
    if next.Some? {
      var s := Step(next.value, peer(trace, next.value), tls);
      RankFalls(plan, p, s);
      AnsweredStep(peer, trace, s);
      PlayAsks(peer, plan, Next(plan.job, p, s), TlsAfter(tls, s), trace + [s]);
    }
  }

  /** A whole attempt is answered by the server it is about. */
  lemma DialogueAsks(peer: Peer, plan: Plan)
    ensures Answered(peer, Dialogue(peer, plan))
  {
    hide Play;
    PlayAsks(peer, plan, Start, plan.tls, []);
  }

  /** An attempt without TLS stays without it. */
  lemma {:induction false} PlayInClear(peer: Peer, plan: Plan, p: Phase, trace: seq<Step>)
    requires !plan.startTls && forall i :: 0 <= i < |trace| ==> !trace[i].tls
    ensures forall i :: 0 <= i < |Play(peer, plan, p, false, trace)| ==> !Play(peer, plan, p, false, trace)[i].tls
    decreases Rank(plan, p, false)
  {
    hide Rank;
    var next := NextCommand(plan, p, false);
    if next.Some? {
      var s := Step(next.value, peer(trace, next.value), false);
      RankFalls(plan, p, s);
      PlayInClear(peer, plan, Next(plan.job, p, s), trace + [s]);
    }
  }

  // ---- What the monitor's verdict means

  /** Contents sent, contents answered 250, and recipients accepted, in order. */
  function Contents(trace: seq<Step>): nat {
    if trace == [] then 0
    else Contents(trace[..|trace| - 1]) + if trace[|trace| - 1].command.Content? then 1 else 0
  }

  function Finals(trace: seq<Step>): nat {
    if trace == [] then 0
    else
      var s := trace[|trace| - 1];
      Finals(trace[..|trace| - 1]) + if s.command.Content? && s.outcome.Reply? && s.outcome.code == 250 then 1 else 0
  }

  function Accepted(trace: seq<Step>): seq<bytes> {
    if trace == [] then []
    else
      var s := trace[|trace| - 1];
      Accepted(trace[..|trace| - 1])
      + if s.command.RcptTo? && s.outcome.Reply? && 250 <= s.outcome.code <= 259 then [s.command.to] else []
  }

  /** What a phase says about the contents, final replies and recipients so far. */
  predicate Tally(job: Job, p: Phase, contents: nat, finals: nat, accepted: seq<bytes>) {
    finals <= contents <= 1 && (finals == 1 <==> p == Delivered || p == Closed)
    && accepted <= job.to && (contents == 1 ==> accepted == job.to)
    && match p
       case Transaction(k) => k <= |job.to| && accepted == job.to[..k] && contents == 0
       case Invited => accepted == job.to && contents == 0
       case Start | Opened | EhloRefused | Ready(_) | Secured => accepted == [] && contents == 0
       case _ => true
  }

  lemma TallyStep(job: Job, p: Phase, s: Step, contents: nat, finals: nat, accepted: seq<bytes>)
    requires Next(job, p, s) != Violation
    ensures p != Violation
    ensures Tally(job, p, contents, finals, accepted)
            ==> Tally(job, Next(job, p, s), contents + (if s.command.Content? then 1 else 0),
                      finals + (if s.command.Content? && s.outcome.Reply? && s.outcome.code == 250 then 1 else 0),
                      accepted + if s.command.RcptTo? && s.outcome.Reply? && 250 <= s.outcome.code <= 259
                                 then [s.command.to] else [])
  {
    hide Extensions, Offers;
    assert accepted + [] == accepted;
  }

  /**
   Any dialogue the monitor does not reject: the content is sent at most once and only to a server that accepted
   every recipient, and it is with the server exactly when the final reply was 250.
   */
  lemma {:induction false} DialogueFacts(job: Job, trace: seq<Step>)
    requires Monitor(job, trace) != Violation
    ensures Tally(job, Monitor(job, trace), Contents(trace), Finals(trace), Accepted(trace))
    decreases |trace|
  {
    hide Next;
    if trace == [] {
    } else {
      var before, s := trace[..|trace| - 1], trace[|trace| - 1];
      hide Tally;
      TallyStep(job, Monitor(job, before), s, Contents(before), Finals(before), Accepted(before));
      DialogueFacts(job, before);
    }
  }

  /** A sealed job shows neither sender, recipients nor content without TLS. */
  lemma {:induction false} SealedFacts(job: Job, trace: seq<Step>)
    requires job.sealed && Monitor(job, trace) != Violation
    ensures forall i :: 0 <= i < |trace| ==>
              var c := trace[i].command;
              c.MailFrom? || c.RcptTo? || c.Data? || c.Content? ==> trace[i].tls
    decreases |trace|
  {
    if trace != [] {
      var before := trace[..|trace| - 1];
      SealedFacts(job, before);
      assert forall i :: 0 <= i < |before| ==> trace[i] == before[i];
    }
  }

  lemma {:induction false} FinalsSome(trace: seq<Step>)
    ensures Finals(trace) > 0 <==> exists i :: 0 <= i < |trace| && trace[i].command.Content?
                                               && trace[i].outcome.Reply? && trace[i].outcome.code == 250
    decreases |trace|
  {
    if trace != [] {
      var before := trace[..|trace| - 1];
      FinalsSome(before);
      assert forall i :: 0 <= i < |before| ==> trace[i] == before[i];
    }
  }

  /** Whatever the server does: nil if and only if it answered the content with 250, and never two contents. */
  lemma NilIffAccepted(job: Job, trace: seq<Step>, err: Option<Error>)
    requires Reported(job, trace, err)
    ensures err == None <==> Finals(trace) == 1
    ensures err == None <==> exists i :: 0 <= i < |trace| && trace[i].command.Content?
                                         && trace[i].outcome.Reply? && trace[i].outcome.code == 250
    ensures Finals(trace) <= 1 && Contents(trace) <= 1
    ensures err == None ==> Accepted(trace) == job.to && ValidLines(job.from, job.to)
  {
    hide Contents, Finals, Accepted, Monitor;
    DialogueFacts(job, trace);
    FinalsSome(trace);
    if err == None {
      MonitorStart(job);
      assert trace != [];
    }
  }

  /** The error is permanent exactly when the server's last word was a 5xx, and then no message was taken. */
  lemma PermanentIsLastReply(job: Job, trace: seq<Step>, err: Option<Error>)
    requires Reported(job, trace, err)
    ensures err.Some? && IsPermanentSmtpResponse(err.value)
            <==> trace != [] && trace[|trace| - 1].outcome.Reply? && 500 <= trace[|trace| - 1].outcome.code <= 599
                 && !trace[|trace| - 1].command.Quit?
    ensures err.Some? && IsPermanentSmtpResponse(err.value) ==> Finals(trace) == 0
  {
    hide Contents, Finals, Accepted, Monitor;
    NilIffAccepted(job, trace, err);
  }

  lemma PermanentIff(plan: Plan, q: Phase, on: bool, trace: seq<Step>)
    requires Underway(plan, q, on, trace) && NextCommand(plan, q, on) == None
    ensures Refused(trace) <==> Verdict(plan, trace).Some? && IsPermanentSmtpResponse(Verdict(plan, trace).value)
  {
    hide Monitor, ValidLines, Extensions;
    if trace != [] {
      BehindLast(plan.job, trace);
    }
  }

  // ---- The order of the commands, in the terms of the standards

  /** An EHLO reply lists a keyword on a line behind the first, alone or with parameters. */
  ghost predicate Lists(lines: seq<bytes>, name: bytes) {
    exists i :: 1 <= i < |lines| && Names(lines[i], name)
  }

  ghost predicate Names(line: bytes, name: bytes) {
    line == name || exists rest :: line == name + [0x20] + rest
  }

  lemma KeywordIff(line: bytes, name: bytes)
    requires 0x20 !in name
    ensures Keyword(line) == name <==> Names(line, name)
  {
    var k := IndexOf(line, 0x20);
    if k < |line| {
      assert line == line[..k] + [0x20] + line[k + 1..];
    } else {
      assert line[..k] == line;
    }
    if rest :| line == name + [0x20] + rest {
      assert line[|name|] == 0x20 && line[..|name|] == name;
      assert forall i :: 0 <= i < |name| ==> line[i] == name[i];
      assert k == |name|;
    }
    if line == name {
      assert k == |line|;
    }
  }

  lemma ListsIff(lines: seq<bytes>, name: bytes)
    requires 0x20 !in name
    ensures name in Extensions(lines) <==> Lists(lines, name)
  {
    hide Keyword, Names;
    forall i | 1 <= i < |lines|
      ensures Keyword(lines[i]) == name <==> Names(lines[i], name)
    {
      KeywordIff(lines[i], name);
    }
  }

  /** What may come before a command, and with which reply. */
  ghost predicate Precedes(a: Step, command: Command) {
    match command
    case Connect(_) => false
    case Ehlo(_) => (a.command.Connect? || a.command.StartTls?) && a.outcome.Reply? && a.outcome.code == 220
    case Helo(_) => a.command.Ehlo? && !(a.outcome.Reply? && a.outcome.code == 250)
    case StartTls => a.command.Ehlo? && a.outcome.Reply? && a.outcome.code == 250
                     && Lists(a.outcome.lines, Ascii("STARTTLS"))
    case MailFrom(_, eightBit, utf8) =>
      (a.command.Ehlo? || a.command.Helo?) && a.outcome.Reply? && a.outcome.code == 250
      && (eightBit <==> a.command.Ehlo? && Lists(a.outcome.lines, Ascii("8BITMIME")))
      && (utf8 <==> a.command.Ehlo? && Lists(a.outcome.lines, Ascii("SMTPUTF8")))
    case RcptTo(_) => Opens(a)
    case Data => Opens(a)
    case Content(_) => a.command.Data? && a.outcome.Reply? && a.outcome.code == 354
    case Quit => a.command.Content? && a.outcome.Reply? && a.outcome.code == 250
  }

  /** The sender was accepted, or a recipient. */
  predicate Opens(a: Step) {
    a.outcome.Reply?
    && ((a.command.MailFrom? && a.outcome.code == 250) || (a.command.RcptTo? && 250 <= a.outcome.code <= 259))
  }

  /** A command says what the job says. */
  predicate Fits(job: Job, command: Command) {
    match command
    case MailFrom(from, _, _) => from == job.from
    case RcptTo(to) => to in job.to
    case Content(msg) => msg == job.msg
    case _ => true
  }

  /** The last step of a dialogue, by the phase it led to. */
  predicate Behind(p: Phase, a: Step) {
    match p
    case Start => false
    case Opened => a.command.Connect? && a.outcome.Reply? && a.outcome.code == 220
    case EhloRefused => a.command.Ehlo? && !(a.outcome.Reply? && a.outcome.code == 250)
    case Ready(ext) =>
      a.outcome.Reply? && a.outcome.code == 250
      && ((a.command.Ehlo? && ext == Some(Extensions(a.outcome.lines))) || (a.command.Helo? && ext == None))
    case Secured => a.command.StartTls? && a.outcome.Reply? && a.outcome.code == 220
    case Transaction(_) => Opens(a)
    case Invited => a.command.Data? && a.outcome.Reply? && a.outcome.code == 354
    case Delivered => a.command.Content? && a.outcome.Reply? && a.outcome.code == 250
    case Closed => a.command.Quit?
    case Rejected => !Positive(a.command, a.outcome) && !a.command.Quit?
    case Violation => true
  }

  lemma BehindStep(job: Job, p: Phase, s: Step)
    ensures Behind(Next(job, p, s), s)
  {
    hide Extensions, Offers;
  }

  lemma BehindLast(job: Job, trace: seq<Step>)
    requires trace != []
    ensures Behind(Monitor(job, trace), trace[|trace| - 1])
  {
    hide Next, Behind;
    BehindStep(job, Monitor(job, trace[..|trace| - 1]), trace[|trace| - 1]);
  }

  lemma Spelling()
    ensures START_TLS == Ascii("STARTTLS") && EIGHT_BIT == Ascii("8BITMIME") && SMTP_UTF8 == Ascii("SMTPUTF8")
    ensures 0x20 !in START_TLS && 0x20 !in EIGHT_BIT && 0x20 !in SMTP_UTF8
  {
  }

  lemma PrecedesStep(job: Job, p: Phase, a: Step, s: Step)
    requires Behind(p, a) && Next(job, p, s) != Violation
    ensures Precedes(a, s.command) && Fits(job, s.command)
  {
    hide Lists, Extensions, Ascii;
    Spelling();
    if p.Ready? && p.ext.Some? {
      ListsIff(a.outcome.lines, START_TLS);
      ListsIff(a.outcome.lines, EIGHT_BIT);
      ListsIff(a.outcome.lines, SMTP_UTF8);
    }
  }

  lemma FirstStep(job: Job, s: Step)
    requires Next(job, Start, s) != Violation
    ensures s.command.Connect?
  {
  }

  /**
   In a dialogue the monitor admits, each command comes after one that may precede it and was answered as it has to
   be: EHLO after a 220, HELO after a refused EHLO, STARTTLS and the parameters of MAIL exactly as the last EHLO lists
   them, a recipient after a 250 to MAIL or a 25x to RCPT, content after a 354, QUIT after a 250.
   */
  lemma {:induction false} CommandOrder(job: Job, trace: seq<Step>)
    requires Monitor(job, trace) != Violation
    ensures trace != [] ==> trace[0].command.Connect?
    ensures forall i :: 0 < i < |trace| ==> Precedes(trace[i - 1], trace[i].command) && Fits(job, trace[i].command)
    decreases |trace|
  {
    hide Next, Precedes, Fits, Behind;
    if trace != [] {
      var before, s := trace[..|trace| - 1], trace[|trace| - 1];
      NoViolationBefore(job, Monitor(job, before), s);
      CommandOrder(job, before);
      assert forall i :: 0 <= i < |before| ==> trace[i] == before[i];
      if before == [] {
        FirstStep(job, s);
      } else {
        BehindLast(job, before);
        PrecedesStep(job, Monitor(job, before), before[|before| - 1], s);
      }
    }
  }

  lemma NoViolationBefore(job: Job, p: Phase, s: Step)
    requires Next(job, p, s) != Violation
    ensures p != Violation
  {
  }

  /** What goes over the wire in a whole attempt: where it connects, how it greets, and from when on under TLS. */
  ghost predicate OnTheWire(plan: Plan, trace: seq<Step>) {
    (forall i :: 0 <= i < |trace| ==>
       match trace[i].command
       case Connect(addr) => addr == plan.addr
       case Ehlo(name) => name == plan.localName
       case Helo(name) => name == plan.localName
       case StartTls => plan.startTls
       case _ => true)
    && (forall i :: 0 <= i < |trace| ==> (trace[i].tls <==> plan.tls || TlsBegun(trace, i)))
  }

  /** STARTTLS was answered 220 among the first `n` steps. */
  ghost predicate TlsBegun(trace: seq<Step>, n: nat)
    requires n <= |trace|
  {
    exists j :: 0 <= j < n && trace[j].command.StartTls? && trace[j].outcome.Reply? && trace[j].outcome.code == 220
  }

  lemma BegunStep(trace: seq<Step>, s: Step)
    ensures forall i :: 0 <= i <= |trace| ==> (TlsBegun(trace + [s], i) <==> TlsBegun(trace, i))
    ensures TlsBegun(trace + [s], |trace| + 1)
            <==> TlsBegun(trace, |trace|)
                 || (s.command.StartTls? && s.outcome.Reply? && s.outcome.code == 220)
  {
    var more := trace + [s];
    assert forall j :: 0 <= j < |trace| ==> more[j] == trace[j];
    assert more[|trace|] == s;
  }

  lemma WireStep(plan: Plan, p: Phase, s: Step, trace: seq<Step>)
    requires OnTheWire(plan, trace) && NextCommand(plan, p, s.tls) == Some(s.command)
    requires s.tls <==> plan.tls || TlsBegun(trace, |trace|)
    ensures OnTheWire(plan, trace + [s])
    ensures TlsAfter(s.tls, s) <==> plan.tls || TlsBegun(trace + [s], |trace| + 1)
  {
    hide TlsBegun, ValidLines;
    BegunStep(trace, s);
    var more := trace + [s];
    assert forall i :: 0 <= i < |trace| ==> more[i] == trace[i];
  }

  lemma {:induction false} PlayOnTheWire(peer: Peer, plan: Plan, p: Phase, tls: bool, trace: seq<Step>)
    requires OnTheWire(plan, trace) && (tls <==> plan.tls || TlsBegun(trace, |trace|))
    ensures OnTheWire(plan, Play(peer, plan, p, tls, trace))
    decreases Rank(plan, p, tls)
  {
    hide Rank, OnTheWire, TlsBegun;
    var next := NextCommand(plan, p, tls);
    if next.Some? {
      var s := Step(next.value, peer(trace, next.value), tls);
      RankFalls(plan, p, s);
      WireStep(plan, p, s, trace);
      PlayOnTheWire(peer, plan, Next(plan.job, p, s), TlsAfter(tls, s), trace + [s]);
    }
  }

  /** Whatever the server does, an attempt says only this, and nothing at all when a line of the envelope is not one. */
  lemma DialogueOnTheWire(peer: Peer, plan: Plan)
    ensures OnTheWire(plan, Dialogue(peer, plan))
    ensures Sealable(plan) ==>
              (Dialogue(peer, plan) == []
               <==> 10 in plan.job.from || 13 in plan.job.from
                    || exists i :: 0 <= i < |plan.job.to| && (10 in plan.job.to[i] || 13 in plan.job.to[i]))
  {
    hide Play, Verdict, Monitor;
    PlayOnTheWire(peer, plan, Start, plan.tls, []);
    if Sealable(plan) {
      AttemptReported(peer, plan);
    }
  }
}
