/** Who receives an incoming message, and what storing it does to the mail store. */
module Incoming {
  import opened Bytes
  import opened Substrings
  import opened ErrorTree
  import opened MailDb
  import Audit
  import Ids
  import Store

  datatype UserRow = UserRow(account: bytes, isAdmin: bool)

  /**
   Configuration and library calls: the local domains, the spam filter level, strings.ToLower, SQL's LOWER, and the
   address a recipient string parses to.
   */
  datatype Setup = Setup(domains: seq<bytes>, spamFilterLevel: int, lower: bytes -> bytes, sqlLower: bytes -> bytes,
                         parse: bytes -> Option<bytes>)

  const AT: byte := 0x40

  /** GetDomainAccount: the account and the domain of an address. */
  function AccountOf(address: bytes): (bytes, bytes) {
    var infos := Split(address, AT);
    if |infos| >= 2 then (infos[0], infos[1]) else ([], [])
  }

  /** Up to the first "@" and from there up to the next, if there is one; without any, an address names nobody. */
  lemma AccountIs(account: bytes, domain: bytes, tail: bytes)
    requires 0x40 !in account && 0x40 !in domain && (tail == [] || tail[0] == 0x40)
    ensures AccountOf(account + [0x40] + (domain + tail)) == (account, domain)
    ensures AccountOf(account) == ([], [])
  {
    hide Split;
    SplitHead(account, AT, domain + tail);
    if tail == [] {
      assert domain + tail == domain;
      SplitHead(domain, AT, []);
    } else {
      assert domain + tail == domain + [AT] + tail[1..];
      SplitHead(domain, AT, tail[1..]);
    }
  }

  // ---- The accounts a message is for

  /** An envelope recipient counts when it is at a local domain. */
  predicate EnvelopeNames(s: Setup, recipient: bytes, account: bytes) {
    s.parse(recipient).Some?
    && var (name, domain) := AccountOf(s.parse(recipient).value);
       name != [] && domain in s.domains && account == s.lower(name)
  }

  /** A header recipient counts whatever its domain. */
  predicate HeaderNames(s: Setup, address: bytes, account: bytes) {
    AccountOf(address).0 != [] && account == s.lower(AccountOf(address).0)
  }

  predicate EnvelopeIncludes(s: Setup, reallyTo: seq<bytes>, account: bytes) {
    exists i :: 0 <= i < |reallyTo| && EnvelopeNames(s, reallyTo[i], account)
  }

  predicate HeaderIncludes(s: Setup, addresses: seq<bytes>, account: bytes) {
    exists i :: 0 <= i < |addresses| && HeaderNames(s, addresses[i], account)
  }

  /** The headers are consulted only when the envelope is empty. */
  predicate Wanted(s: Setup, reallyTo: seq<bytes>, headers: seq<seq<bytes>>, account: bytes) {
    if reallyTo != [] then EnvelopeIncludes(s, reallyTo, account)
    else exists h :: 0 <= h < |headers| && HeaderIncludes(s, headers[h], account)
  }

  /** incomingAccounts; `headers` are To, Cc and Bcc. */
  method IncomingAccounts(s: Setup, reallyTo: seq<bytes>, headers: seq<seq<bytes>>) returns (accounts: seq<bytes>)
    ensures forall a :: a in accounts <==> Wanted(s, reallyTo, headers, a)
  {
    hide AccountOf;
    accounts := [];
    if |reallyTo| > 0 {
      for i := 0 to |reallyTo|
        invariant forall a :: a in accounts <==> EnvelopeIncludes(s, reallyTo[..i], a)
      {
        ghost var before := accounts;
        var account := s.parse(reallyTo[i]);
        if account.Some? {
          var (name, domain) := AccountOf(account.value);
          if domain in s.domains && name != [] {
            accounts := accounts + [s.lower(name)];
          }
        }
        forall a
          ensures a in accounts <==> EnvelopeIncludes(s, reallyTo[..i + 1], a)
        {
          assert a in accounts <==> a in before || EnvelopeNames(s, reallyTo[i], a);
          EnvelopeStep(s, reallyTo, i, a);
        }
      }
      assert reallyTo[..|reallyTo|] == reallyTo;
      return;
    }
    for h := 0 to |headers|
      invariant forall a :: a in accounts <==> exists g :: 0 <= g < h && HeaderIncludes(s, headers[g], a)
    {
      ghost var outer := accounts;
      for i := 0 to |headers[h]|
        invariant forall a :: a in accounts <==> a in outer || HeaderIncludes(s, headers[h][..i], a)
      {
        ghost var before := accounts;
        var name := AccountOf(headers[h][i]).0;
        if name != [] {
          accounts := accounts + [s.lower(name)];
        }
        forall a
          ensures a in accounts <==> a in outer || HeaderIncludes(s, headers[h][..i + 1], a)
        {
          assert a in accounts <==> a in before || HeaderNames(s, headers[h][i], a);
          HeaderStep(s, headers[h], i, a);
        }
      }
      assert headers[h][..|headers[h]|] == headers[h];
    }
  }

  lemma EnvelopeStep(s: Setup, reallyTo: seq<bytes>, i: nat, a: bytes)
    requires i < |reallyTo|
    ensures EnvelopeIncludes(s, reallyTo[..i + 1], a)
            <==> EnvelopeIncludes(s, reallyTo[..i], a) || EnvelopeNames(s, reallyTo[i], a)
  {
    hide EnvelopeNames;
    var more, less := reallyTo[..i + 1], reallyTo[..i];
    assert more[i] == reallyTo[i];
    assert forall j :: 0 <= j < i ==> more[j] == less[j];
  }

  lemma HeaderStep(s: Setup, addresses: seq<bytes>, i: nat, a: bytes)
    requires i < |addresses|
    ensures HeaderIncludes(s, addresses[..i + 1], a)
            <==> HeaderIncludes(s, addresses[..i], a) || HeaderNames(s, addresses[i], a)
  {
    hide HeaderNames;
    var more, less := addresses[..i + 1], addresses[..i];
    assert more[i] == addresses[i];
    assert forall j :: 0 <= j < i ==> more[j] == less[j];
  }

  // ---- The users who get it

  datatype Resolution = Users(ids: seq<int>) | Dropped | Failed(error: Error)

  const NO_ADMINISTRATOR :=
    Error(OtherError, Ascii("no administrator ") + Ascii("available for ") + Ascii("unknown recipient"), [])

  function Addressed(s: Setup, users: map<int, UserRow>, accounts: set<bytes>): set<int> {
    set u | u in users && s.sqlLower(users[u].account) in accounts
  }

  function Admins(users: map<int, UserRow>): set<int> {
    set u | u in users && users[u].isAdmin
  }

  /** A message to nobody here is dropped when the checks of the filter level failed. */
  predicate Suspicious(s: Setup, spf: bool, dkim: bool) {
    (s.spamFilterLevel == 1 && !spf && !dkim) || (s.spamFilterLevel == 2 && !spf) || (s.spamFilterLevel == 3 && !dkim)
  }

  lemma SuspiciousIff(s: Setup, spf: bool, dkim: bool)
    ensures Suspicious(s, spf, dkim) <==> match s.spamFilterLevel
                                          case 1 => !spf && !dkim
                                          case 2 => !spf
                                          case 3 => !dkim
                                          case _ => false
  {
  }

  ghost predicate Lists(ids: seq<int>, who: set<int>) {
    (forall i, j :: 0 <= i < j < |ids| ==> ids[i] != ids[j]) && forall u :: u in ids <==> u in who
  }

  /** Find: the rows of a query in any order. */
  method FindAll(rows: set<int>) returns (ids: seq<int>)
    ensures Lists(ids, rows) && (ids == [] <==> rows == {})
  {
    ids := [];
    var left := rows;
    while left != {}
      invariant left <= rows && Lists(ids, rows - left)
      decreases left
    {
      ghost var some := Ids.Pick(left);
      var u :| u in left;
      ids := ids + [u];
      left := left - {u};
    }
    assert rows - {} == rows;
    assert ids != [] ==> ids[0] in ids;
    if rows != {} {
      ghost var some := Ids.Pick(rows);
      assert some in ids;
    }
  }

  /** resolveIncomingUsers. */
  method ResolveIncomingUsers(s: Setup, kind: int, users: map<int, UserRow>, reallyTo: seq<bytes>,
                              headers: seq<seq<bytes>>, spf: bool, dkim: bool,
                              readUsers: Option<Error>, readAdmins: Option<Error>)
    returns (r: Resolution, ghost accounts: set<bytes>)
    ensures forall a :: a in accounts <==> Wanted(s, reallyTo, headers, a)
    ensures kind != 0 ==> r == Users([])
    ensures kind == 0 ==>
              var named := set u | u in users && s.sqlLower(users[u].account) in accounts;
              var admins := set u | u in users && users[u].isAdmin;
              var suspicious := match s.spamFilterLevel
                                case 1 => !spf && !dkim
                                case 2 => !spf
                                case 3 => !dkim
                                case _ => false;
              if accounts != {} && readUsers.Some? then r == Failed(readUsers.value)
              else if named != {} then r.Users? && Lists(r.ids, named)
              else if suspicious then r == Dropped
              else if readAdmins.Some? then r == Failed(readAdmins.value)
              else if admins != {} then r.Users? && Lists(r.ids, admins)
              else r.Failed?
    ensures kind == 0 && r.Users? ==> r.ids != []
  {
    hide Wanted, Suspicious;
    var names := IncomingAccounts(s, reallyTo, headers);
    accounts := set a | a in names;
    SuspiciousIff(s, spf, dkim);
    if kind != RECEIVE {
      return Users([]), accounts;
    }
    assert names != [] ==> names[0] in accounts;
    if |names| > 0 {
      if readUsers.Some? {
        return Failed(readUsers.value), accounts;
      }
      var found := FindAll(set u | u in users && s.sqlLower(users[u].account) in names);
      assert (set u | u in users && s.sqlLower(users[u].account) in names) == Addressed(s, users, accounts);
      if |found| > 0 {
        return Users(found), accounts;
      }
    }
    assert Addressed(s, users, accounts) == {};
    if Suspicious(s, spf, dkim) {
      return Dropped, accounts;
    }
    if readAdmins.Some? {
      return Failed(readAdmins.value), accounts;
    }
    var admins := FindAll(Admins(users));
    r := if |admins| == 0 then Failed(NO_ADMINISTRATOR) else Users(admins);
  }

  // ---- Storing it

  /** The audited insert is the store's transition when no statement fails. */
  lemma {:induction false} InsertLinksIsAddLinks(db: Db, id: int, users: seq<int>, status: int,
                                                 stmt: nat -> Option<Error>, n: nat)
    requires forall k: nat :: stmt(k) == None
    ensures Audit.InsertLinks(db, id, users, status, stmt, n) == (Store.AddLinks(db, id, users, status), None)
    decreases |users|
  {
    if users != [] {
      InsertLinksIsAddLinks(InsertLink(db, Link(users[0], id, 0, 0, status)), id, users[1..], status, stmt, n + 1);
    }
  }

  lemma AuditIsReceive(db: Db, row: EmailRow, users: seq<int>, stmt: nat -> Option<Error>)
    requires WellKeyed(db) && forall k: nat :: stmt(k) == None
    ensures Audit.InsertAudit(db, row, users, stmt) == (Store.Receive(db, row, users), None)
  {
    InsertLinksIsAddLinks(InsertEmail(db, row), db.nextEmail, users, row.status, stmt, 1);
  }

  /** Who is linked to an email after links were added. */
  lemma {:induction false} LinkedAfter(db: Db, email: int, users: seq<int>, status: int, user: int)
    requires WellKeyed(db) && email < db.nextEmail
    requires forall i, j :: 0 <= i < j < |users| ==> users[i] != users[j]
    ensures |Store.OwnLinks(Store.AddLinks(db, email, users, status), user, {email})|
            == |Store.OwnLinks(db, user, {email})| + if user in users then 1 else 0
    decreases |users|
  {
    hide Store.OwnLinks, Store.AddLinks, WellKeyed;
    if users == [] {
      NobodyAdded(db, email, status);
    } else {
      Store.AddLinksStep(db, email, users, status);
      var link := Link(users[0], email, 0, 0, status);
      OwnAfterInsert(db, link, user);
      LinkedAfter(InsertLink(db, link), email, users[1..], status, user);
      FirstOrRest(users, user);
    }
  }

  lemma OwnAfterInsert(db: Db, link: Link, user: int)
    requires WellKeyed(db) && link.emailId < db.nextEmail
    ensures WellKeyed(InsertLink(db, link)) && link.emailId < InsertLink(db, link).nextEmail
    ensures |Store.OwnLinks(InsertLink(db, link), user, {link.emailId})|
            == |Store.OwnLinks(db, user, {link.emailId})| + if user == link.userId then 1 else 0
  {
    hide WellKeyed;
    InsertLinkKeyed(db, link);
    OwnWith(db, link, user);
  }

  lemma OwnWith(db: Db, link: Link, user: int)
    requires db.nextLink !in db.links
    ensures |Store.OwnLinks(InsertLink(db, link), user, {link.emailId})|
            == |Store.OwnLinks(db, user, {link.emailId})| + if user == link.userId then 1 else 0
  {
    var own := Store.OwnLinks(db, user, {link.emailId});
    var more := Store.OwnLinks(InsertLink(db, link), user, {link.emailId});
    assert forall l :: l in more <==> l in own || (l == db.nextLink && user == link.userId);
    if user == link.userId {
      assert db.nextLink !in own;
      assert more == own + {db.nextLink};
    } else {
      assert more == own;
    }
  }

  lemma NobodyAdded(db: Db, email: int, status: int)
    ensures Store.AddLinks(db, email, [], status) == db
  {
  }

  lemma FirstOrRest(users: seq<int>, user: int)
    requires users != [] && forall i, j :: 0 <= i < j < |users| ==> users[i] != users[j]
    ensures user in users <==> user == users[0] || user in users[1..]
    ensures !(user == users[0] && user in users[1..])
  {
    assert users == [users[0]] + users[1..];
  }

  /** A resolved message keeps the store sound and is linked once to each of its users and to nobody else. */
  lemma ReceivedOnce(db: Db, row: EmailRow, users: seq<int>, who: set<int>)
    requires Store.Inv(db) && users != [] && Lists(users, who)
    ensures Store.Inv(Store.Receive(db, row, users))
    ensures forall u :: |Store.OwnLinks(Store.Receive(db, row, users), u, {db.nextEmail})| == if u in who then 1 else 0
  {
    hide Store.AddLinks, Store.NoOrphans;
    Store.StepKeepsInv(db, Store.DoReceive(row, users));
    InsertEmailKeyed(db, row);
    forall u
      ensures |Store.OwnLinks(Store.Receive(db, row, users), u, {db.nextEmail})| == if u in who then 1 else 0
    {
      LinkedAfter(InsertEmail(db, row), db.nextEmail, users, row.status, u);
      assert Store.OwnLinks(InsertEmail(db, row), u, {db.nextEmail}) <= LinksOf(db, db.nextEmail);
    }
  }
}
