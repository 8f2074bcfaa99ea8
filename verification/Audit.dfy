/** Outbound delivery with a durable audit: record Pending, deliver once, record the outcome, answer. */
module Audit {
  import opened Bytes
  import opened ErrorTree
  import opened MailDb
  import opened Transaction
  import opened Substrings
  import DeliveryReply

  /** What the client is told when nothing could be recorded. */
  const LOCAL_FAILURE := 451

  /** What fails inside one transaction: its statements by number, and its begin, rollback and commit. */
  datatype Faults = Faults(
    stmt: nat -> nat -> Option<Error>,
    begin: nat -> Option<Error>,
    rollback: nat -> Option<Error>,
    commit: nat -> Option<Error>)

  datatype SenderResult = SenderResult(err: Option<Error>, domains: DeliveryReply.DomainErrors)

  /**
   Everything outside the protocol: the faults of both transactions, the result of the sender, and what other
   sessions and the hooks do to the database while the message is on its way.
   */
  datatype Environment = Environment(
    sqlite: bool,
    hasSender: bool,
    first: Faults,
    second: Faults,
    sent: SenderResult,
    others: Db -> Db)

  const NO_ID: Error := Error(OtherError, [], [])
  const NOT_ONE: Error := Error(OtherError, [], [])

  // ---- The work of the two transactions

  /** One user_email row per user; statement `n` inserts the first of them. */
  function InsertLinks(db: Db, id: int, users: seq<int>, status: int, stmt: nat -> Option<Error>, n: nat)
    : (Db, Option<Error>)
    decreases |users|
  {
    if users == [] then (db, None)
    else if stmt(n).Some? then (db, stmt(n))
    else InsertLinks(InsertLink(db, Link(users[0], id, 0, 0, status)), id, users[1..], status, stmt, n + 1)
  }

  function InsertAudit(db: Db, row: EmailRow, users: seq<int>, stmt: nat -> Option<Error>): (Db, Option<Error>) {
    if stmt(0).Some? then (db, stmt(0))
    else if db.nextEmail <= 0 then (InsertEmail(db, row), Some(NO_ID))
    else InsertLinks(InsertEmail(db, row), db.nextEmail, users, row.status, stmt, 1)
  }

  function SetLinkStatus(db: Db, id: int, status: int): Db {
    db.(links := map l | l in db.links :: if db.links[l].emailId == id then db.links[l].(status := status)
                                          else db.links[l])
  }

  function SetEmailStatus(db: Db, id: int, status: int, error: Option<bytes>): Db {
    if id in db.emails then db.(emails := db.emails[id := db.emails[id].(status := status, error := error)]) else db
  }

  /** Both rows, or an error when either statement fails or does not change exactly one row. */
  function RecordResult(db: Db, id: int, status: int, error: Option<bytes>, stmt: nat -> Option<Error>)
    : (Db, Option<Error>)
  {
    if stmt(0).Some? then (db, stmt(0))
    else
      var marked := SetEmailStatus(db, id, status, error);
      if stmt(1).Some? then (marked, stmt(1))
      else if id !in db.emails then (marked, Some(NOT_ONE))
      else if stmt(2).Some? then (marked, stmt(2))
      else
        var both := SetLinkStatus(marked, id, status);
        if stmt(3).Some? then (both, stmt(3))
        else if |LinksOf(db, id)| != 1 then (both, Some(NOT_ONE))
        else (both, None)
  }

  // ---- The run, event by event

  datatype Event =
    | Committed(db: Db)
    | Interference(db: Db)
    | SenderCalled
    | SenderReturned(result: SenderResult)
    | Replied(reply: Option<int>)   // None: accepted

  /** What is recorded as the error of a message whose outcome is not known yet. */
  const DELIVERY_PENDING: bytes :=
    Ascii("delivery result pending; ") + Ascii("outcome unknown ") + Ascii("after interruption")

  function PendingRow(): EmailRow { EmailRow(SEND, PENDING, Some(DELIVERY_PENDING)) }

  /** A failed ROLLBACK does not make uncommitted work durable. */
  function TxWorld(f: Faults, sqlite: bool, work: (Db, nat) -> (Db, Option<Error>)): World<Db> {
    World(sqlite, work, f.begin, f.rollback, f.commit, (durable, session, k) => durable)
  }

  function FirstWorld(env: Environment, user: int): World<Db> {
    TxWorld(env.first, env.sqlite, (db: Db, k: nat) => InsertAudit(db, PendingRow(), [user], env.first.stmt(k)))
  }

  function TargetStatus(env: Environment): int { if env.sent.err.Some? then FAIL else SENT }

  function ErrorText(env: Environment): Option<bytes> {
    if env.sent.err.Some? then Some(env.sent.err.value.text) else None
  }

  function SecondWorld(env: Environment, id: int): World<Db> {
    TxWorld(env.second, env.sqlite,
            (db: Db, k: nat) => RecordResult(db, id, TargetStatus(env), ErrorText(env), env.second.stmt(k)))
  }

  function RunTx(w: World<Db>, db: Db): Outcome<Db> {
    Run(w, db, TRANSACTION_ATTEMPTS, INITIAL_BACKOFF)
  }

  /** The code a client sees for the result of the sender. */
  ghost function ReplyCode(sent: SenderResult): Option<int> {
    match sent.err
    case None => None
    case Some(e) => Some(DeliveryReply.ReplyFor(e, sent.domains).code)
  }

  /** The events of one run of deliverOutgoingEmail. A crash cuts the list anywhere. */
  ghost function Events(env: Environment, user: int, db: Db): seq<Event> {
    if !env.hasSender then [Replied(Some(LOCAL_FAILURE))]
    else
      var first := RunTx(FirstWorld(env, user), db);
      if first.err.Some? then [Replied(Some(LOCAL_FAILURE))]
      else
        var between := env.others(first.db);
        var second := RunTx(SecondWorld(env, db.nextEmail), between);
        [Committed(first.db), SenderCalled, SenderReturned(env.sent), Interference(between)]
        + (if second.err.None? then [Committed(second.db)] else [])
        + [Replied(ReplyCode(env.sent))]
  }

  // ---- Safety

  /** The audit of email `id`: one email row and one link of `user`, with the same status. */
  ghost predicate Agrees(db: Db, id: int) {
    id in db.emails && exists l :: LinksOf(db, id) == {l} && db.links[l].status == db.emails[id].status
  }

  ghost predicate IsPending(db: Db, id: int, user: int) {
    id in db.emails && db.emails[id].status == 6
    && exists l :: LinksOf(db, id) == {l} && db.links[l].userId == user && db.links[l].status == 6
  }

  ghost predicate Safe(ev: seq<Event>, id: int, user: int) {
    // the sender is called at most once, and only behind a committed Pending record
    && (forall i, j :: 0 <= i < |ev| && 0 <= j < |ev| && ev[i].SenderCalled? && ev[j].SenderCalled? ==> i == j)
    && (forall i :: 0 <= i < |ev| && ev[i].SenderCalled? ==>
          exists j :: 0 <= j < i && ev[j].Committed? && IsPending(ev[j].db, id, user))
    // in every committed state both rows have the same status, and the status is true
    && (forall i :: 0 <= i < |ev| && ev[i].Committed? ==> Agrees(ev[i].db, id))
    && (forall i :: 0 <= i < |ev| && ev[i].Committed? ==>
          ev[i].db.emails[id].status == 6
          || (ev[i].db.emails[id].status == 1
              && exists j :: 0 <= j < i && ev[j].SenderReturned? && ev[j].result.err == None)
          || (ev[i].db.emails[id].status == 2
              && exists j :: 0 <= j < i && ev[j].SenderReturned? && ev[j].result.err.Some?))
    // without a record the client is told to retry and nothing was sent; with one, only the sender decides
    && (forall i :: 0 <= i < |ev| && ev[i].Replied? ==>
          (ev[i].reply == Some(451) && forall j :: 0 <= j < |ev| ==> ev[j].Replied?)
          || exists j :: 0 <= j < i && ev[j].SenderReturned? && ev[i].reply == ReplyCode(ev[j].result))
  }

  /** The record that is made before anything is sent: an outgoing email that waits for its outcome, and its link. */
  lemma InsertAuditPending(db: Db, user: int, stmt: nat -> Option<Error>)
    requires WellKeyed(db)
    requires InsertAudit(db, PendingRow(), [user], stmt).1 == None
    ensures var after := InsertAudit(db, PendingRow(), [user], stmt).0;
            IsPending(after, db.nextEmail, user)
            && after.emails == db.emails[db.nextEmail := EmailRow(1, 6, Some(
                 Ascii("delivery result pending; ") + Ascii("outcome unknown ") + Ascii("after interruption")))]
            && after.links == db.links[db.nextLink := Link(user, db.nextEmail, 0, 0, 6)]
  {
    var row := PendingRow();
    var withEmail := InsertEmail(db, row);
    InsertEmailKeyed(db, row);
    var link := Link(user, db.nextEmail, 0, 0, PENDING);
    InsertLinkKeyed(withEmail, link);
    var after := InsertLink(withEmail, link);
    assert InsertLinks(after, db.nextEmail, [user][1..], PENDING, stmt, 2) == (after, None);
    assert LinksOf(withEmail, db.nextEmail) == LinksOf(db, db.nextEmail);
    assert LinksOf(after, db.nextEmail) == {withEmail.nextLink};
  }

  lemma RecordResultAgrees(db: Db, id: int, status: int, error: Option<bytes>, stmt: nat -> Option<Error>)
    requires RecordResult(db, id, status, error, stmt).1 == None
    ensures id in db.emails
    ensures var after := RecordResult(db, id, status, error, stmt).0;
            Agrees(after, id) && after.emails[id] == db.emails[id].(status := status, error := error)
            && forall l :: l in db.links && db.links[l].emailId == id ==>
                             after.links[l] == db.links[l].(status := status)
  {
    var after := RecordResult(db, id, status, error, stmt).0;
    var l := Singleton(LinksOf(db, id));
    assert LinksOf(after, id) == LinksOf(db, id);
    assert l in LinksOf(after, id);
  }

  lemma FirstCommitIsPending(env: Environment, user: int, db: Db)
    requires WellKeyed(db) && RunTx(FirstWorld(env, user), db).err == None
    ensures IsPending(RunTx(FirstWorld(env, user), db).db, db.nextEmail, user)
  {
    hide RunFrom, InsertAudit, IsPending;
    var w := FirstWorld(env, user);
    RunIsAtomic(w, db, 1, TRANSACTION_ATTEMPTS, INITIAL_BACKOFF);
    var k :| 1 <= k <= TRANSACTION_ATTEMPTS && w.work(db, k) == (RunTx(w, db).db, None);
    InsertAuditPending(db, user, env.first.stmt(k));
  }

  lemma SecondCommitAgrees(env: Environment, id: int, db: Db)
    requires RunTx(SecondWorld(env, id), db).err == None
    ensures Agrees(RunTx(SecondWorld(env, id), db).db, id)
    ensures id in db.emails
    ensures RunTx(SecondWorld(env, id), db).db.emails[id]
            == match env.sent.err
               case None => db.emails[id].(status := 1, error := None)
               case Some(e) => db.emails[id].(status := 2, error := Some(e.text))
  {
    hide RunFrom, RecordResult;
    var w := SecondWorld(env, id);
    RunIsAtomic(w, db, 1, TRANSACTION_ATTEMPTS, INITIAL_BACKOFF);
    var k :| 1 <= k <= TRANSACTION_ATTEMPTS && w.work(db, k) == (RunTx(w, db).db, None);
    RecordResultAgrees(db, id, TargetStatus(env), ErrorText(env), env.second.stmt(k));
  }

  /** Every run is safe, whatever fails and whatever other sessions do meanwhile. */
  lemma EveryRunIsSafe(env: Environment, user: int, db: Db)
    requires WellKeyed(db)
    ensures Safe(Events(env, user, db), db.nextEmail, user)
  {
    hide RunTx, FirstWorld, SecondWorld, ReplyCode;
    var id := db.nextEmail;
    var ev := Events(env, user, db);
    var first := RunTx(FirstWorld(env, user), db);
    if env.hasSender && first.err == None {
      FirstCommitIsPending(env, user, db);
      var between := env.others(first.db);
      var second := RunTx(SecondWorld(env, id), between);
      assert ev[0] == Committed(first.db) && ev[2] == SenderReturned(env.sent);
      if second.err == None {
        SecondCommitAgrees(env, id, between);
      }
      var l :| LinksOf(first.db, id) == {l} && first.db.links[l].status == 6;
      assert Agrees(first.db, id);
    }
  }

  /** Safety of a list of events that ends with the reply is safety of each of its beginnings. */
  lemma SafePrefix(ev: seq<Event>, id: int, user: int, k: nat)
    requires Safe(ev, id, user) && k <= |ev|
    requires forall i :: 0 <= i < |ev| && ev[i].Replied? ==> i == |ev| - 1
    ensures Safe(ev[..k], id, user)
  {
    var cut := ev[..k];
    assert forall i :: 0 <= i < k ==> cut[i] == ev[i];
    forall i | 0 <= i < k && cut[i].SenderCalled?
      ensures exists j :: 0 <= j < i && cut[j].Committed? && IsPending(cut[j].db, id, user)
    {
      var j :| 0 <= j < i && ev[j].Committed? && IsPending(ev[j].db, id, user);
      assert cut[j] == ev[j];
    }
    forall i | 0 <= i < k && cut[i].Committed?
      ensures cut[i].db.emails[id].status == 6
              || (cut[i].db.emails[id].status == 1
                  && exists j :: 0 <= j < i && cut[j].SenderReturned? && cut[j].result.err == None)
              || (cut[i].db.emails[id].status == 2
                  && exists j :: 0 <= j < i && cut[j].SenderReturned? && cut[j].result.err.Some?)
    {
      if cut[i].db.emails[id].status == 1 {
        var j :| 0 <= j < i && ev[j].SenderReturned? && ev[j].result.err == None;
        assert cut[j] == ev[j];
      } else if cut[i].db.emails[id].status != 6 {
        var j :| 0 <= j < i && ev[j].SenderReturned? && ev[j].result.err.Some?;
        assert cut[j] == ev[j];
      }
    }
  }

  /** A run cut short by a crash after any of its events is safe. */
  lemma SafeAfterCrash(env: Environment, user: int, db: Db, k: nat)
    requires WellKeyed(db) && k <= |Events(env, user, db)|
    ensures Safe(Events(env, user, db)[..k], db.nextEmail, user)
  {
    hide RunTx, FirstWorld, SecondWorld, ReplyCode, Safe;
    EveryRunIsSafe(env, user, db);
    SafePrefix(Events(env, user, db), db.nextEmail, user, k);
  }

  /** What a restart finds: the last state that was made durable. */
  function Durable(initial: Db, ev: seq<Event>): Db {
    if ev == [] then initial
    else
      match ev[|ev| - 1]
      case Committed(db) => db
      case Interference(db) => db
      case _ => Durable(initial, ev[..|ev| - 1])
  }

  lemma DurableStep(initial: Db, ev: seq<Event>, last: Event)
    ensures Durable(initial, []) == initial
    ensures Durable(initial, ev + [last]) == match last
                                             case Committed(db) => db
                                             case Interference(db) => db
                                             case _ => Durable(initial, ev)
  {
    assert (ev + [last])[..|ev|] == ev;
  }

  /** A restart finds both rows with one status, or nothing recorded and nothing sent. */
  ghost predicate FoundIntact(env: Environment, user: int, db: Db, k: nat)
    requires k <= |Events(env, user, db)|
  {
    var found := Durable(db, Events(env, user, db)[..k]);
    Agrees(found, db.nextEmail) || (found == db && SenderCalled !in Events(env, user, db)[..k])
  }

  /** What the other sessions leave of the record between the two transactions. */
  ghost predicate RecordLeft(env: Environment, user: int, db: Db) {
    env.hasSender && RunTx(FirstWorld(env, user), db).err == None
    ==> Agrees(env.others(RunTx(FirstWorld(env, user), db).db), db.nextEmail)
  }

  lemma PendingAgrees(db: Db, id: int, user: int)
    requires IsPending(db, id, user)
    ensures Agrees(db, id)
  {
  }

  /** After a crash at any point the record is intact, exactly when the other sessions leave it so. */
  lemma CrashAnywhere(env: Environment, user: int, db: Db)
    requires WellKeyed(db)
    ensures (forall k :: 0 <= k <= |Events(env, user, db)| ==> FoundIntact(env, user, db, k))
            <==> RecordLeft(env, user, db)
  {
    hide RunTx, FirstWorld, SecondWorld, ReplyCode, Durable, WellKeyed, Agrees, IsPending;
    var id := db.nextEmail;
    var ev := Events(env, user, db);
    var first := RunTx(FirstWorld(env, user), db);
    DurableAt(db, ev, 0);
    if env.hasSender && first.err == None {
      FirstCommitIsPending(env, user, db);
      var between := env.others(first.db);
      var second := RunTx(SecondWorld(env, id), between);
      if second.err == None {
        SecondCommitAgrees(env, id, between);
      }
      PendingAgrees(first.db, id, user);
      DurableAt(db, ev, 1);
      DurableAt(db, ev, 2);
      DurableAt(db, ev, 3);
      DurableAt(db, ev, 4);
      if second.err == None {
        DurableAt(db, ev, 5);
      }
      assert ev[..4][1] == SenderCalled;
      assert FoundIntact(env, user, db, 4) <==> Agrees(between, id);
      forall k | 0 <= k <= |ev| && Agrees(between, id)
        ensures FoundIntact(env, user, db, k)
      {
        assert k == 0 || k == 1 || k == 2 || k == 3 || k == 4 || k == 5 || k == 6;
      }
    } else {
      forall k | 0 <= k <= |ev|
        ensures FoundIntact(env, user, db, k)
      {
        assert k == 0 || k == 1;
      }
    }
  }

  /** The durable state behind event `i`. */
  lemma DurableAt(initial: Db, ev: seq<Event>, i: nat)
    requires i < |ev|
    ensures Durable(initial, ev[..0]) == initial
    ensures Durable(initial, ev[..i + 1]) == match ev[i]
                                             case Committed(db) => db
                                             case Interference(db) => db
                                             case _ => Durable(initial, ev[..i])
  {
    DurableStep(initial, ev[..i], ev[i]);
    assert ev[..i] + [ev[i]] == ev[..i + 1] && ev[..0] == [];
  }

  ghost predicate NoFaults(f: Faults) {
    (forall k: nat :: f.begin(k) == None) && (forall k: nat :: f.commit(k) == None)
    && (forall k: nat, n: nat :: f.stmt(k)(n) == None)
  }

  /** Recording succeeds exactly when no statement fails and there is one email row and one link to update. */
  lemma RecordSucceedsIff(db: Db, id: int, status: int, error: Option<bytes>, stmt: nat -> Option<Error>)
    ensures RecordResult(db, id, status, error, stmt).1 == None
            <==> (forall n :: 0 <= n < 4 ==> stmt(n) == None) && id in db.emails && |LinksOf(db, id)| == 1
  {
    assert (forall n :: 0 <= n < 4 ==> stmt(n) == None)
           <==> stmt(0) == None && stmt(1) == None && stmt(2) == None && stmt(3) == None;
  }

  /**
   Without a failing statement the outcome is recorded exactly when the other sessions left one email row and one
   link: Sent with no error, or Fail with the text of the sender's error, and the same status in the link.
   */
  lemma OutcomeIsRecorded(env: Environment, user: int, db: Db)
    requires WellKeyed(db) && env.hasSender && NoFaults(env.second)
    requires RunTx(FirstWorld(env, user), db).err == None
    ensures var ev := Events(env, user, db);
            var between := env.others(RunTx(FirstWorld(env, user), db).db);
            (ev[4].Committed? <==> db.nextEmail in between.emails && |LinksOf(between, db.nextEmail)| == 1)
            && (ev[4].Committed? ==>
                  Agrees(ev[4].db, db.nextEmail)
                  && ev[4].db.emails[db.nextEmail]
                     == match env.sent.err
                        case None => between.emails[db.nextEmail].(status := 1, error := None)
                        case Some(e) => between.emails[db.nextEmail].(status := 2, error := Some(e.text)))
  {
    hide FirstWorld, Agrees, WellKeyed, RecordResult, RunFrom, LinksOf;
    var id := db.nextEmail;
    var between := env.others(RunTx(FirstWorld(env, user), db).db);
    var w := SecondWorld(env, id);
    if id in between.emails && |LinksOf(between, id)| == 1 {
      RecordSucceedsIff(between, id, TargetStatus(env), ErrorText(env), env.second.stmt(1));
      FirstAttemptCommits(env, id, between);
    }
    if RunTx(w, between).err == None {
      SecondCommitAgrees(env, id, between);
      RunIsAtomic(w, between, 1, TRANSACTION_ATTEMPTS, INITIAL_BACKOFF);
      var k :| 1 <= k <= TRANSACTION_ATTEMPTS && w.work(between, k) == (RunTx(w, between).db, None);
      RecordSucceedsIff(between, id, TargetStatus(env), ErrorText(env), env.second.stmt(k));
    }
  }

  lemma FirstAttemptCommits(env: Environment, id: int, db: Db)
    requires NoFaults(env.second)
    requires RecordResult(db, id, TargetStatus(env), ErrorText(env), env.second.stmt(1)).1 == None
    ensures RunTx(SecondWorld(env, id), db).err == None
  {
    hide RecordResult;
    var w := SecondWorld(env, id);
    assert w.begin(1) == None && w.commit(1) == None;
    assert w.work(db, 1).1 == None;
  }

  /** Recording an outcome touches no other email and no other link. */
  lemma RecordResultFrame(db: Db, id: int, status: int, error: Option<bytes>, stmt: nat -> Option<Error>)
    ensures var after := RecordResult(db, id, status, error, stmt).0;
            after.emails.Keys == db.emails.Keys && after.links.Keys == db.links.Keys
            && (forall e :: e in db.emails && e != id ==> after.emails[e] == db.emails[e])
            && (forall l :: l in db.links && db.links[l].emailId != id ==> after.links[l] == db.links[l])
  {
  }

  // ---- The code

  /** The statements of one transaction, on the uncommitted state. */
  class Session {
    var db: Db

    constructor (initial: Db)
      ensures db == initial
    {
      db := initial;
    }

    /** The work of persistInitialAudit. */
    method PersistInitialAudit(row: EmailRow, users: seq<int>, stmt: nat -> Option<Error>)
      returns (err: Option<Error>, id: int)
      modifies this
      ensures (db, err) == InsertAudit(old(db), row, users, stmt)
      ensures err == None ==> id == old(db).nextEmail
    {
      hide InsertLinks;
      id := db.nextEmail;
      if stmt(0).Some? {
        return stmt(0), id;
      }
      db := InsertEmail(db, row);
      if id <= 0 {
        return Some(NO_ID), id;
      }
      assert users[0..] == users;
      for k := 0 to |users|
        invariant InsertAudit(old(db), row, users, stmt) == InsertLinks(db, id, users[k..], row.status, stmt, k + 1)
      {
        InsertLinksStep(db, id, users[k..], row.status, stmt, k + 1);
        assert users[k..][1..] == users[k + 1..];
        if stmt(k + 1).Some? {
          return stmt(k + 1), id;
        }
        db := InsertLink(db, Link(users[k], id, 0, 0, row.status));
      }
      InsertLinksStep(db, id, users[|users|..], row.status, stmt, |users| + 1);
      err := None;
    }

    /** The work of persistDeliveryResult. */
    method PersistDeliveryResult(id: int, status: int, error: Option<bytes>, stmt: nat -> Option<Error>)
      returns (err: Option<Error>)
      modifies this
      ensures (db, err) == RecordResult(old(db), id, status, error, stmt)
    {
      if stmt(0).Some? {
        return stmt(0);
      }
      var affected := if id in db.emails then 1 else 0;
      db := SetEmailStatus(db, id, status, error);
      err := RequireOneAffected(stmt(1), affected);
      if err.Some? {
        return;
      }
      if stmt(2).Some? {
        return stmt(2);
      }
      affected := |LinksOf(db, id)|;
      assert LinksOf(db, id) == LinksOf(old(db), id);
      db := SetLinkStatus(db, id, status);
      err := RequireOneAffected(stmt(3), affected);
    }
  }

  lemma InsertLinksStep(db: Db, id: int, users: seq<int>, status: int, stmt: nat -> Option<Error>, n: nat)
    ensures InsertLinks(db, id, users, status, stmt, n) ==
            if users == [] then (db, None)
            else if stmt(n).Some? then (db, stmt(n))
            else InsertLinks(InsertLink(db, Link(users[0], id, 0, 0, status)), id, users[1..], status, stmt, n + 1)
  {
  }

  /** requireOneAffected. */
  method RequireOneAffected(readError: Option<Error>, affected: nat) returns (err: Option<Error>)
    ensures err == None <==> readError == None && affected == 1
    ensures err.Some? ==> err == readError || (readError == None && err == Some(NOT_ONE))
  {
    if readError.Some? {
      return readError;
    }
    if affected != 1 {
      return Some(NOT_ONE);
    }
    err := None;
  }

  /** The durable database and the journal of what happened to it and to the message. */
  class Server {
    const engine: Engine<Db>
    var journal: seq<Event>

    constructor (initial: Db)
      ensures fresh(engine) && engine.db == initial && journal == []
    {
      engine := new Engine(initial);
      journal := [];
    }

    /** deliverOutgoingEmail. */
    method DeliverOutgoingEmail(env: Environment, user: int) returns (reply: Option<DeliveryReply.Reply>)
      requires WellKeyed(engine.db)
      modifies this, engine
      ensures journal == old(journal) + Events(env, user, old(engine.db))
      ensures engine.db == Durable(old(engine.db), Events(env, user, old(engine.db)))
      ensures journal[|journal| - 1] == Replied(if reply.Some? then Some(reply.value.code) else None)
      ensures env.hasSender && RunTx(FirstWorld(env, user), old(engine.db)).err == None
              ==> (reply == None <==> env.sent.err == None)
                  && (reply.Some? ==> reply == Some(DeliveryReply.ReplyFor(env.sent.err.value, env.sent.domains)))
      ensures !env.hasSender || RunTx(FirstWorld(env, user), old(engine.db)).err.Some?
              ==> reply == Some(DeliveryReply.Reply(451, (4, 3, 0),
                                                    Ascii("Temporary local ") + Ascii("persistence failure")))
    {
      hide RunFrom, Durable, WellKeyed, FirstWorld, SecondWorld, ReplyCode;
      ghost var initial := engine.db;
      var ev: seq<Event> := [];
      DurableStep(initial, [], Replied(Some(LOCAL_FAILURE)));
      var id := engine.db.nextEmail;
      var err := Some(NO_ID);
      if env.hasSender {
        err := engine.TransactionWithRetry(FirstWorld(env, user), TRANSACTION_ATTEMPTS, INITIAL_BACKOFF);
      }
      if err.Some? {
        if env.hasSender {
          FailureKeepsDatabase(env, user, initial);
        }
        ev := [Replied(Some(LOCAL_FAILURE))];
        assert [] + ev == ev;
        journal := journal + ev;
        return Some(LocalPersistenceError());
      }
      ev := [Committed(engine.db), SenderCalled, SenderReturned(env.sent)];
      engine.db := env.others(engine.db);
      DurableStep(initial, ev, Interference(engine.db));
      ev := ev + [Interference(engine.db)];

      var targetStatus, errorText := SENT, None;
      if env.sent.err.Some? {
        targetStatus, errorText := FAIL, Some(env.sent.err.value.text);
      }
      ghost var between := engine.db;
      err := engine.TransactionWithRetry(SecondWorld(env, id), TRANSACTION_ATTEMPTS, INITIAL_BACKOFF);
      if err == None {
        DurableStep(initial, ev, Committed(engine.db));
        ev := ev + [Committed(engine.db)];
      } else {
        SecondFailureKeepsDatabase(env, id, between);
      }
      reply := DeliveryReply.DownstreamReply(env.sent.err, env.sent.domains);
      var code := if reply.Some? then Some(reply.value.code) else None;
      ReplyCodeOf(env.sent, reply);
      DurableStep(initial, ev, Replied(code));
      ev := ev + [Replied(code)];
      assert ev == Events(env, user, initial);
      journal := journal + ev;
    }
  }

  lemma ReplyCodeOf(sent: SenderResult, reply: Option<DeliveryReply.Reply>)
    requires reply == None <==> sent.err == None
    requires reply.Some? ==> reply == Some(DeliveryReply.ReplyFor(sent.err.value, sent.domains))
    ensures ReplyCode(sent) == if reply.Some? then Some(reply.value.code) else None
  {
  }

  function LocalPersistenceError(): DeliveryReply.Reply {
    DeliveryReply.Reply(LOCAL_FAILURE, (4, 3, 0), Ascii("Temporary local ") + Ascii("persistence failure"))
  }

  /** A transaction that reports an error leaves nothing behind. */
  lemma FailureKeepsDatabase(env: Environment, user: int, db: Db)
    requires RunTx(FirstWorld(env, user), db).err.Some?
    ensures RunTx(FirstWorld(env, user), db).db == db
  {
    LastAttemptKeeps(FirstWorld(env, user), db);
  }

  lemma SecondFailureKeepsDatabase(env: Environment, id: int, db: Db)
    requires RunTx(SecondWorld(env, id), db).err.Some?
    ensures RunTx(SecondWorld(env, id), db).db == db
  {
    LastAttemptKeeps(SecondWorld(env, id), db);
  }

  lemma AttemptKeeps(w: World<Db>, db: Db, k: nat)
    requires Attempt(w, db, k).1.Some?
    requires forall durable, session, j: nat :: w.leftover(durable, session, j) == durable
    ensures Attempt(w, db, k).0 == db
  {
    var changed := w.work(db, k).0;
    assert w.leftover(db, changed, k) == db;
  }

  lemma LastAttemptKeeps(w: World<Db>, db: Db)
    requires RunTx(w, db).err.Some?
    requires forall durable, session, k: nat :: w.leftover(durable, session, k) == durable
    ensures RunTx(w, db).db == db
  {
    hide RunFrom, Retries, Attempt;
    RetriesOnlyBusy(w, db, 1, TRANSACTION_ATTEMPTS, INITIAL_BACKOFF);
    var last :| 1 <= last <= TRANSACTION_ATTEMPTS && !Retries(w, db, last, TRANSACTION_ATTEMPTS)
                && RunTx(w, db).err == Attempt(w, db, last).1 && RunTx(w, db).db == Attempt(w, db, last).0;
    AttemptKeeps(w, db, last);
  }
}
