/**
 The mail store: email rows live as long as some user_email row links to them. Deleting, copying, moving,
 forwarding and receiving are the transitions.
 */
module Store {
  import opened Bytes
  import opened MailDb
  import Ids

  // ---- Sets of links

  /** The links of `user` to one of the emails. */
  function OwnLinks(db: Db, user: int, emails: set<int>): set<int> {
    set l | l in db.links && db.links[l].userId == user && db.links[l].emailId in emails
  }

  /** The links filed in one of the groups, whoever they belong to. */
  function FiledLinks(db: Db, groups: set<int>): set<int> {
    set l | l in db.links && db.links[l].groupId in groups
  }

  function RemoveLinks(db: Db, ls: set<int>): Db {
    db.(links := db.links - ls)
  }

  /** UPDATE user_email SET ... over a set of rows; None leaves a column alone. */
  function UpdateLinks(db: Db, ls: set<int>, status: Option<int>, group: Option<int>, read: Option<int>): Db {
    db.(links := map l | l in db.links :: if l in ls then Updated(db.links[l], status, group, read) else db.links[l])
  }

  function Updated(k: Link, status: Option<int>, group: Option<int>, read: Option<int>): Link {
    k.(status := if status.Some? then status.value else k.status,
       groupId := if group.Some? then group.value else k.groupId,
       isRead := if read.Some? then read.value else k.isRead)
  }

  /** DELETE FROM email WHERE id=? when the count of its links is zero. */
  function DropIfUnlinked(db: Db, email: int): Db {
    if LinksOf(db, email) == {} then db.(emails := db.emails - {email}) else db
  }

  // ---- Deleting

  /** deleteOne. */
  function DeleteOne(db: Db, user: int, email: int, forced: bool): Db {
    if !forced then UpdateLinks(db, OwnLinks(db, user, {email}), Some(DELETED), Some(0), None)
    else DropIfUnlinked(RemoveLinks(db, OwnLinks(db, user, {email})), email)
  }

  function DeleteAll(db: Db, user: int, emails: seq<int>, forced: bool): Db
    decreases |emails|
  {
    if emails == [] then db else DeleteAll(DeleteOne(db, user, emails[0], forced), user, emails[1..], forced)
  }

  predicate Owns(db: Db, user: int, l: int) {
    l in db.links && db.links[l].userId == user
  }

  /** One round of DelByUID: the link goes, and its email with the last one. */
  function DeleteLink(db: Db, l: int): Db
    requires l in db.links
  {
    DropIfUnlinked(RemoveLinks(db, {l}), db.links[l].emailId)
  }

  /** DelByUID stops, without an error, at the first key that is not a link of the user any more. */
  function DeleteByUid(db: Db, user: int, ls: seq<int>): Db
    decreases |ls|
  {
    if ls == [] || !Owns(db, user, ls[0]) then db else DeleteByUid(DeleteLink(db, ls[0]), user, ls[1..])
  }

  // ---- Adding links

  /** A message to be copied: its email, the read flag and the status the copy gets. */
  datatype Copied = Copied(emailId: int, isRead: int, status: int)

  function CopyAll(db: Db, user: int, mails: seq<Copied>, group: int): Db
    decreases |mails|
  {
    if mails == [] then db
    else
      CopyAll(InsertLink(db, Link(user, mails[0].emailId, mails[0].isRead, group, mails[0].status)),
              user, mails[1..], group)
  }

  /** forwardToLocalUser: at most one link per user and email. */
  function ForwardTo(db: Db, user: int, email: int, status: int): Db {
    if OwnLinks(db, user, {email}) != {} then db else InsertLink(db, Link(user, email, 0, 0, status))
  }

  function AddLinks(db: Db, email: int, users: seq<int>, status: int): Db
    decreases |users|
  {
    if users == [] then db
    else AddLinks(InsertLink(db, Link(users[0], email, 0, 0, status)), email, users[1..], status)
  }

  /** persistInitialAudit when it commits. */
  function Receive(db: Db, row: EmailRow, users: seq<int>): Db {
    AddLinks(InsertEmail(db, row), db.nextEmail, users, row.status)
  }

  // ---- The default boxes

  datatype Box = Inbox | SentBox | DraftsBox | DeletedBox | JunkBox

  /** The status Move2DefaultBox and copy2defaultbox give to a link. */
  function BoxStatus(b: Box): int {
    match b
    case Inbox => WAIT
    case SentBox => SENT
    case DraftsBox => DRAFTS
    case DeletedBox => DELETED
    case JunkBox => JUNK
  }

  /** doMove into a default box: INBOX and Sent also change the email's type, and both clear the status. */
  function RuleMove(db: Db, user: int, email: int, b: Box): Db {
    var typed :=
      if (b.Inbox? || b.SentBox?) && email in db.emails
      then db.(emails := db.emails[email := db.emails[email].(kind := if b.Inbox? then RECEIVE else SEND)])
      else db;
    var status := if b.Inbox? || b.SentBox? then WAIT else BoxStatus(b);
    UpdateLinks(typed, OwnLinks(typed, user, {email}), Some(status), Some(0), None)
  }

  // ---- Transitions

  datatype Op =
    | DoReceive(row: EmailRow, users: seq<int>)
    | DoDelete(user: int, emails: seq<int>, forced: bool)
    | DoDeleteByUid(user: int, ls: seq<int>)
    | DoCopy(user: int, mails: seq<Copied>, group: int)
    | DoForward(user: int, email: int, status: int)
    | DoMoveToGroup(user: int, moved: set<int>, group: int)
    | DoMoveToBox(user: int, moved: set<int>, box: Box)
    | DoRuleMove(user: int, email: int, box: Box)
    | DoRuleGroup(user: int, email: int, group: int)
    | DoRuleRead(user: int, email: int)
    | DoRuleDelete(user: int, email: int)
    | DoUnfile(groups: set<int>)

  function Apply(db: Db, op: Op): Db {
    match op
    case DoReceive(row, users) => Receive(db, row, users)
    case DoDelete(user, emails, forced) => DeleteAll(db, user, emails, forced)
    case DoDeleteByUid(user, ls) => DeleteByUid(db, user, ls)
    case DoCopy(user, mails, group) => CopyAll(db, user, mails, group)
    case DoForward(user, email, status) => ForwardTo(db, user, email, status)
    case DoMoveToGroup(user, emails, group) => UpdateLinks(db, OwnLinks(db, user, emails), None, Some(group), None)
    case DoMoveToBox(user, emails, box) =>
      UpdateLinks(db, OwnLinks(db, user, emails), Some(BoxStatus(box)), Some(0), None)
    case DoRuleMove(user, email, box) => RuleMove(db, user, email, box)
    case DoRuleGroup(user, email, group) => UpdateLinks(db, OwnLinks(db, user, {email}), None, Some(group), None)
    case DoRuleRead(user, email) => UpdateLinks(db, OwnLinks(db, user, {email}), None, None, Some(1))
    case DoRuleDelete(user, email) => UpdateLinks(db, OwnLinks(db, user, {email}), Some(DELETED), None, None)
    case DoUnfile(groups) =>
      UpdateLinks(db, FiledLinks(db, groups), None, Some(0), None)
  }

  /** What callers guarantee: a message is received by somebody, and only existing emails are copied or forwarded. */
  predicate Enabled(db: Db, op: Op) {
    match op
    case DoReceive(_, users) => users != []
    case DoCopy(_, mails, _) => forall m :: m in mails ==> m.emailId in db.emails
    case DoForward(_, email, _) => email in db.emails
    case _ => true
  }

  function RunOps(db: Db, ops: seq<Op>): Db
    decreases |ops|
  {
    if ops == [] then db else RunOps(Apply(db, ops[0]), ops[1..])
  }

  predicate AllEnabled(db: Db, ops: seq<Op>)
    decreases |ops|
  {
    ops == [] || (Enabled(db, ops[0]) && AllEnabled(Apply(db, ops[0]), ops[1..]))
  }

  // ---- The invariant

  /** Every link leads to an email, and every email has a link. */
  predicate NoOrphans(db: Db) {
    (forall l :: l in db.links ==> db.links[l].emailId in db.emails)
    && (forall e :: e in db.emails ==> LinksOf(db, e) != {})
  }

  predicate Inv(db: Db) { WellKeyed(db) && NoOrphans(db) }

  /** Who is linked to what, by the key of the link. */
  function Identity(db: Db): map<int, (int, int)> {
    map l | l in db.links :: (db.links[l].userId, db.links[l].emailId)
  }

  /** The database with the emails nobody links to taken out. */
  function Collected(db: Db): Db {
    db.(emails := map e | e in db.emails && LinksOf(db, e) != {} :: db.emails[e])
  }

  /** Updating rows keeps every link where it is. */
  lemma UpdateKeeps(db: Db, ls: set<int>, status: Option<int>, group: Option<int>, read: Option<int>)
    ensures var after := UpdateLinks(db, ls, status, group, read);
            Identity(after) == Identity(db) && after.emails == db.emails && after.nextEmail == db.nextEmail
            && after.nextLink == db.nextLink
            && (forall e :: LinksOf(after, e) == LinksOf(db, e)) && (Inv(db) ==> Inv(after))
  {
    var after := UpdateLinks(db, ls, status, group, read);
    assert after.links.Keys == db.links.Keys;
    assert forall l :: l in db.links ==>
             after.links[l].emailId == db.links[l].emailId && after.links[l].userId == db.links[l].userId;
    forall e
      ensures LinksOf(after, e) == LinksOf(db, e)
    {
      assert forall l :: l in LinksOf(after, e) <==> l in LinksOf(db, e);
    }
    assert Identity(after) == Identity(db);
  }

  lemma LinksAfterRemoval(db: Db, ls: set<int>, e: int)
    ensures LinksOf(RemoveLinks(db, ls), e) == LinksOf(db, e) - ls
  {
  }

  /** Removing links to one email and dropping it when they were the last is garbage collection. */
  lemma DropIsCollection(db: Db, ls: set<int>, email: int)
    requires Inv(db) && forall l :: l in ls && l in db.links ==> db.links[l].emailId == email
    ensures var after := DropIfUnlinked(RemoveLinks(db, ls), email);
            after == Collected(RemoveLinks(db, ls)) && Inv(after)
  {
    var cut := RemoveLinks(db, ls);
    var after := DropIfUnlinked(cut, email);
    forall e | e in db.emails
      ensures e != email ==> LinksOf(cut, e) != {}
      ensures LinksOf(after, e) == LinksOf(cut, e)
    {
      LinksAfterRemoval(db, ls, e);
      if e != email {
        assert forall l :: l in LinksOf(db, e) ==> l !in ls;
        assert LinksOf(db, e) - ls == LinksOf(db, e);
      }
    }
    assert forall l :: l in cut.links ==> l in LinksOf(cut, cut.links[l].emailId);
    assert after.emails == Collected(cut).emails;
  }

  /** Collecting after each removal or once at the end makes no difference. */
  lemma CollectTwice(db: Db, ls: set<int>)
    ensures Collected(RemoveLinks(Collected(db), ls)) == Collected(RemoveLinks(db, ls))
  {
    var once, twice := Collected(RemoveLinks(db, ls)), Collected(RemoveLinks(Collected(db), ls));
    forall e
      ensures LinksOf(RemoveLinks(Collected(db), ls), e) == LinksOf(RemoveLinks(db, ls), e)
      ensures LinksOf(db, e) == {} ==> LinksOf(RemoveLinks(db, ls), e) == {}
    {
      LinksAfterRemoval(db, ls, e);
      LinksAfterRemoval(Collected(db), ls, e);
      assert LinksOf(Collected(db), e) == LinksOf(db, e);
    }
    assert once.emails == twice.emails;
  }

  lemma RemoveTwice(db: Db, a: set<int>, b: set<int>)
    ensures RemoveLinks(RemoveLinks(db, a), b) == RemoveLinks(db, a + b)
  {
    assert (db.links - a) - b == db.links - (a + b);
  }

  lemma CollectedInv(db: Db)
    requires Inv(db)
    ensures Collected(db) == db
  {
    assert Collected(db).emails == db.emails;
  }

  /**
   Forced deletion is exact: the user's links to the given emails disappear, and with them exactly the emails
   that no link is left for.
   */
  lemma {:induction false} ForcedDeleteExact(db: Db, user: int, emails: seq<int>)
    requires Inv(db)
    ensures Inv(DeleteAll(db, user, emails, true))
    ensures DeleteAll(db, user, emails, true)
         == Collected(RemoveLinks(db, OwnLinks(db, user, (set e | e in emails))))
    decreases |emails|
  {
    hide Inv, Collected;
    var all := set e | e in emails;
    if emails == [] {
      assert OwnLinks(db, user, all) == {};
      assert db.links - {} == db.links;
      CollectedInv(db);
    } else {
      var first := OwnLinks(db, user, {emails[0]});
      var step := DeleteOne(db, user, emails[0], true);
      DropIsCollection(db, first, emails[0]);
      ForcedDeleteExact(step, user, emails[1..]);
      var rest := set e | e in emails[1..];
      assert emails == [emails[0]] + emails[1..];
      var later := OwnLinks(step, user, rest);
      CollectedLinks(RemoveLinks(db, first));
      assert first + later == OwnLinks(db, user, all);
      CollectTwice(RemoveLinks(db, first), later);
      RemoveTwice(db, first, later);
    }
  }

  lemma CollectedLinks(db: Db)
    ensures Collected(db).links == db.links
  {
  }

  /** How many leading keys DelByUID gets through: it stops at the first unknown, foreign or repeated one. */
  function Accepted(db: Db, user: int, ls: seq<int>): (n: nat)
    ensures n <= |ls|
    decreases |ls|
  {
    if ls == [] || !Owns(db, user, ls[0]) then 0 else 1 + Accepted(RemoveLinks(db, {ls[0]}), user, ls[1..])
  }

  lemma {:induction false} AcceptedIgnoresEmails(db: Db, other: Db, user: int, ls: seq<int>)
    requires db.links == other.links
    ensures Accepted(db, user, ls) == Accepted(other, user, ls)
    decreases |ls|
  {
    if ls != [] && Owns(db, user, ls[0]) {
      AcceptedIgnoresEmails(RemoveLinks(db, {ls[0]}), RemoveLinks(other, {ls[0]}), user, ls[1..]);
    }
  }

  /** Deletion by UID is exact: the accepted links disappear, and with them exactly the emails left unlinked. */
  lemma {:induction false} DeleteByUidExact(db: Db, user: int, ls: seq<int>)
    requires Inv(db)
    ensures Inv(DeleteByUid(db, user, ls))
    ensures DeleteByUid(db, user, ls)
         == Collected(RemoveLinks(db, (set l | l in ls[..Accepted(db, user, ls)])))
    decreases |ls|
  {
    hide Inv, Collected;
    if ls == [] || !Owns(db, user, ls[0]) {
      assert (set l | l in ls[..0]) == {};
      assert db.links - {} == db.links;
      CollectedInv(db);
    } else {
      var step := DeleteLink(db, ls[0]);
      DropIsCollection(db, {ls[0]}, db.links[ls[0]].emailId);
      DeleteByUidExact(step, user, ls[1..]);
      CollectedLinks(RemoveLinks(db, {ls[0]}));
      AcceptedIgnoresEmails(step, RemoveLinks(db, {ls[0]}), user, ls[1..]);
      var n := Accepted(step, user, ls[1..]);
      var later := set l | l in ls[1..][..n];
      var taken := ls[..n + 1];
      assert taken == [ls[0]] + ls[1..][..n];
      assert {ls[0]} + later == (set l | l in taken);
      CollectTwice(RemoveLinks(db, {ls[0]}), later);
      RemoveTwice(db, {ls[0]}, later);
    }
  }

  /** It gets through all keys exactly when they are different links of the user. */
  lemma {:induction false} AcceptedAllIff(db: Db, user: int, ls: seq<int>)
    ensures Accepted(db, user, ls) == |ls|
            <==> (forall l :: l in ls ==> l in db.links && db.links[l].userId == user)
                 && (forall i, j :: 0 <= i < j < |ls| ==> ls[i] != ls[j])
    decreases |ls|
  {
    if ls != [] {
      assert ls == [ls[0]] + ls[1..];
      if Owns(db, user, ls[0]) {
        AcceptedAllIff(RemoveLinks(db, {ls[0]}), user, ls[1..]);
        assert forall i :: 0 < i < |ls| ==> ls[i] == ls[1..][i - 1];
        assert forall l :: Owns(RemoveLinks(db, {ls[0]}), user, l) <==> Owns(db, user, l) && l != ls[0];
        assert forall i :: 0 < i < |ls| ==> ls[i] in ls[1..];
      }
    }
  }

  lemma {:induction false} SoftDeleteKeeps(db: Db, user: int, emails: seq<int>)
    ensures Identity(DeleteAll(db, user, emails, false)) == Identity(db)
    ensures Inv(db) ==> Inv(DeleteAll(db, user, emails, false))
    decreases |emails|
  {
    hide Inv, UpdateLinks, Identity;
    if emails != [] {
      UpdateKeeps(db, OwnLinks(db, user, {emails[0]}), Some(DELETED), Some(0), None);
      SoftDeleteKeeps(DeleteOne(db, user, emails[0], false), user, emails[1..]);
    }
  }

  lemma InsertLinkInv(db: Db, link: Link)
    requires Inv(db) && link.emailId in db.emails
    ensures Inv(InsertLink(db, link)) && InsertLink(db, link).emails == db.emails
  {
    InsertLinkKeyed(db, link);
  }

  lemma {:induction false} CopyInv(db: Db, user: int, mails: seq<Copied>, group: int)
    requires Inv(db) && forall m :: m in mails ==> m.emailId in db.emails
    ensures Inv(CopyAll(db, user, mails, group))
    decreases |mails|
  {
    hide Inv, InsertLink;
    if mails != [] {
      var link := Link(user, mails[0].emailId, mails[0].isRead, group, mails[0].status);
      InsertLinkInv(db, link);
      CopyInv(InsertLink(db, link), user, mails[1..], group);
    }
  }

  lemma {:induction false} AddLinksInv(db: Db, email: int, users: seq<int>, status: int)
    requires Inv(db) && email in db.emails
    ensures Inv(AddLinks(db, email, users, status))
    decreases |users|
  {
    hide Inv, InsertLink;
    if users != [] {
      var link := Link(users[0], email, 0, 0, status);
      InsertLinkInv(db, link);
      AddLinksInv(InsertLink(db, link), email, users[1..], status);
    }
  }

  /** The first link makes the new email reachable. */
  lemma FirstLinkInv(db: Db, row: EmailRow, link: Link)
    requires Inv(db) && link.emailId == db.nextEmail
    ensures Inv(InsertLink(InsertEmail(db, row), link))
    ensures db.nextEmail in InsertLink(InsertEmail(db, row), link).emails
  {
    InsertEmailKeyed(db, row);
    var withEmail := InsertEmail(db, row);
    InsertLinkKeyed(withEmail, link);
    forall e | e in db.emails
      ensures LinksOf(withEmail, e) == LinksOf(db, e)
    {
    }
  }

  lemma RuleMoveKeeps(db: Db, user: int, email: int, b: Box)
    ensures Identity(RuleMove(db, user, email, b)) == Identity(db)
    ensures Inv(db) ==> Inv(RuleMove(db, user, email, b))
  {
    var typed :=
      if (b.Inbox? || b.SentBox?) && email in db.emails
      then db.(emails := db.emails[email := db.emails[email].(kind := if b.Inbox? then RECEIVE else SEND)])
      else db;
    assert Identity(typed) == Identity(db);
    assert typed.emails.Keys == db.emails.Keys;
    forall e
      ensures LinksOf(typed, e) == LinksOf(db, e)
    {
    }
    assert Inv(db) ==> Inv(typed);
    hide Inv, UpdateLinks, Identity;
    var status := if b.Inbox? || b.SentBox? then WAIT else BoxStatus(b);
    UpdateKeeps(typed, OwnLinks(typed, user, {email}), Some(status), Some(0), None);
  }

  /** A caller may make any transition, but receives for somebody, and copies and forwards existing emails only. */
  lemma EnabledIff(db: Db, op: Op)
    ensures Enabled(db, op)
            <==> (op.DoReceive? ==> op.users != []) && (op.DoForward? ==> op.email in db.emails)
                 && (op.DoCopy? ==> forall k :: 0 <= k < |op.mails| ==> op.mails[k].emailId in db.emails)
  {
    if op.DoCopy? && forall k :: 0 <= k < |op.mails| ==> op.mails[k].emailId in db.emails {
      assert forall m :: m in op.mails ==> exists k :: 0 <= k < |op.mails| && op.mails[k] == m;
    }
  }

  /** Each transition a caller may make keeps the store free of orphans. */
  lemma StepKeepsInv(db: Db, op: Op)
    requires Inv(db) && Enabled(db, op)
    ensures Inv(Apply(db, op))
  {
    hide Inv, UpdateLinks, DeleteAll, DeleteByUid, CopyAll, AddLinks, InsertLink, InsertEmail, RuleMove, Collected;
    match op
    case DoReceive(row, users) =>
      var link := Link(users[0], db.nextEmail, 0, 0, row.status);
      FirstLinkInv(db, row, link);
      AddLinksInv(InsertLink(InsertEmail(db, row), link), db.nextEmail, users[1..], row.status);
      AddLinksStep(InsertEmail(db, row), db.nextEmail, users, row.status);
    case DoDelete(user, emails, forced) =>
      if forced {
        ForcedDeleteExact(db, user, emails);
      } else {
        SoftDeleteKeeps(db, user, emails);
      }
    case DoDeleteByUid(user, ls) => DeleteByUidExact(db, user, ls);
    case DoCopy(user, mails, group) => CopyInv(db, user, mails, group);
    case DoForward(user, email, status) => InsertLinkInv(db, Link(user, email, 0, 0, status));
    case DoMoveToGroup(user, emails, group) => UpdateKeeps(db, OwnLinks(db, user, emails), None, Some(group), None);
    case DoMoveToBox(user, emails, box) =>
      UpdateKeeps(db, OwnLinks(db, user, emails), Some(BoxStatus(box)), Some(0), None);
    case DoRuleMove(user, email, box) => RuleMoveKeeps(db, user, email, box);
    case DoRuleGroup(user, email, group) => UpdateKeeps(db, OwnLinks(db, user, {email}), None, Some(group), None);
    case DoRuleRead(user, email) => UpdateKeeps(db, OwnLinks(db, user, {email}), None, None, Some(1));
    case DoRuleDelete(user, email) => UpdateKeeps(db, OwnLinks(db, user, {email}), Some(DELETED), None, None);
    case DoUnfile(groups) =>
      UpdateKeeps(db, FiledLinks(db, groups), None, Some(0), None);
  }

  lemma AddLinksStep(db: Db, email: int, users: seq<int>, status: int)
    requires users != []
    ensures AddLinks(db, email, users, status)
         == AddLinks(InsertLink(db, Link(users[0], email, 0, 0, status)), email, users[1..], status)
  {
  }

  /** No orphan appears in any run. */
  lemma {:induction false} RunKeepsInv(db: Db, ops: seq<Op>)
    requires Inv(db) && AllEnabled(db, ops)
    ensures Inv(RunOps(db, ops))
    decreases |ops|
  {
    hide Inv, Apply, Enabled;
    if ops != [] {
      StepKeepsInv(db, ops[0]);
      RunKeepsInv(Apply(db, ops[0]), ops[1..]);
    }
  }

  /** Moves, soft deletes, rules and group deletion only restyle links: who holds what does not change. */
  predicate IsMove(op: Op) {
    match op
    case DoDelete(_, _, forced) => !forced
    case DoReceive(_, _) => false
    case DoDeleteByUid(_, _) => false
    case DoCopy(_, _, _) => false
    case DoForward(_, _, _) => false
    case _ => true
  }

  lemma {:induction false} MovesConserveLinks(db: Db, ops: seq<Op>)
    requires forall op :: op in ops ==> IsMove(op)
    ensures Identity(RunOps(db, ops)) == Identity(db)
    decreases |ops|
  {
    hide Identity, Apply;
    if ops != [] {
      MoveConserves(db, ops[0]);
      MovesConserveLinks(Apply(db, ops[0]), ops[1..]);
    }
  }

  lemma MoveConserves(db: Db, op: Op)
    requires IsMove(op)
    ensures Identity(Apply(db, op)) == Identity(db)
  {
    hide Inv, UpdateLinks, DeleteAll, RuleMove, Identity;
    match op
    case DoDelete(user, emails, forced) => SoftDeleteKeeps(db, user, emails);
    case DoMoveToGroup(user, emails, group) => UpdateKeeps(db, OwnLinks(db, user, emails), None, Some(group), None);
    case DoMoveToBox(user, emails, box) =>
      UpdateKeeps(db, OwnLinks(db, user, emails), Some(BoxStatus(box)), Some(0), None);
    case DoRuleMove(user, email, box) => RuleMoveKeeps(db, user, email, box);
    case DoRuleGroup(user, email, group) => UpdateKeeps(db, OwnLinks(db, user, {email}), None, Some(group), None);
    case DoRuleRead(user, email) => UpdateKeeps(db, OwnLinks(db, user, {email}), None, None, Some(1));
    case DoRuleDelete(user, email) => UpdateKeeps(db, OwnLinks(db, user, {email}), Some(DELETED), None, None);
    case DoUnfile(groups) =>
      UpdateKeeps(db, FiledLinks(db, groups), None, Some(0), None);
  }

  // ---- DelByUID runs outside a transaction

  /** What goes wrong in one round of DelByUID. */
  datatype Fault = NoFault | LinkFails | CountFails | EmailFails

  /** A failing statement does not undo the ones before it: the session never began a transaction. */
  function DeleteByUidWith(db: Db, user: int, ls: seq<int>, faults: nat -> Fault, k: nat): Db
    decreases |ls|
  {
    if ls == [] || !Owns(db, user, ls[0]) then db
    else
      match faults(k)
      case LinkFails => db
      case CountFails => RemoveLinks(db, {ls[0]})
      case EmailFails => DeleteByUidWith(RemoveLinks(db, {ls[0]}), user, ls[1..], faults, k + 1)
      case NoFault => DeleteByUidWith(DeleteLink(db, ls[0]), user, ls[1..], faults, k + 1)
  }

  lemma {:induction false} NoFaultsNoDifference(db: Db, user: int, ls: seq<int>, faults: nat -> Fault, k: nat)
    requires forall j: nat :: faults(j) == NoFault
    ensures DeleteByUidWith(db, user, ls, faults, k) == DeleteByUid(db, user, ls)
    decreases |ls|
  {
    if ls != [] && Owns(db, user, ls[0]) {
      NoFaultsNoDifference(DeleteLink(db, ls[0]), user, ls[1..], faults, k + 1);
    }
  }

  /** A round is reached that removes the last link of an email and then fails to remove the email. */
  predicate LosesEmail(db: Db, user: int, ls: seq<int>, faults: nat -> Fault, k: nat)
    decreases |ls|
  {
    ls != [] && Owns(db, user, ls[0])
    && var last := LinksOf(db, db.links[ls[0]].emailId) == {ls[0]};
    match faults(k)
    case LinkFails => false
    case CountFails => last
    case EmailFails => last || LosesEmail(RemoveLinks(db, {ls[0]}), user, ls[1..], faults, k + 1)
    case NoFault => LosesEmail(DeleteLink(db, ls[0]), user, ls[1..], faults, k + 1)
  }

  /** Removing one link alone is harmless exactly when it is not the last one of its email. */
  lemma LinkAloneIff(db: Db, l: int)
    requires Inv(db) && l in db.links
    ensures Inv(RemoveLinks(db, {l})) <==> LinksOf(db, db.links[l].emailId) != {l}
    ensures LinksOf(db, db.links[l].emailId) == {l} ==> IsOrphan(RemoveLinks(db, {l}), db.links[l].emailId)
  {
    var cut := RemoveLinks(db, {l});
    var e0 := db.links[l].emailId;
    LinksAfterRemoval(db, {l}, e0);
    assert l in LinksOf(db, e0);
    if LinksOf(db, e0) != {l} {
      forall e | e in db.emails
        ensures LinksOf(cut, e) != {}
      {
        LinksAfterRemoval(db, {l}, e);
        assert e != e0 ==> l !in LinksOf(db, e);
      }
    }
  }

  predicate IsOrphan(db: Db, e: int) {
    e in db.emails && LinksOf(db, e) == {}
  }

  /** An orphan is out of reach of every later deletion. */
  lemma {:induction false} OrphanStays(db: Db, user: int, ls: seq<int>, faults: nat -> Fault, k: nat, e: int)
    requires IsOrphan(db, e)
    ensures IsOrphan(DeleteByUidWith(db, user, ls, faults, k), e)
    decreases |ls|
  {
    if ls != [] && Owns(db, user, ls[0]) {
      LinksAfterRemoval(db, {ls[0]}, e);
      assert ls[0] !in LinksOf(db, e);
      hide LinksOf, Owns;
      assert IsOrphan(RemoveLinks(db, {ls[0]}), e);
      OrphanKept(db, ls[0], e);
      if faults(k).EmailFails? {
        OrphanStays(RemoveLinks(db, {ls[0]}), user, ls[1..], faults, k + 1, e);
      } else if faults(k).NoFault? {
        OrphanStays(DeleteLink(db, ls[0]), user, ls[1..], faults, k + 1, e);
      }
    }
  }

  lemma OrphanKept(db: Db, l: int, e: int)
    requires l in db.links && db.links[l].emailId != e && IsOrphan(db, e)
    ensures IsOrphan(DeleteLink(db, l), e)
  {
    LinksAfterRemoval(db, {l}, e);
    assert LinksOf(DeleteLink(db, l), e) == LinksOf(RemoveLinks(db, {l}), e);
  }

  /** With failing statements, DelByUID keeps the store free of orphans exactly when it loses no email. */
  lemma {:induction false} FaultyDeleteIff(db: Db, user: int, ls: seq<int>, faults: nat -> Fault, k: nat)
    requires Inv(db)
    ensures Inv(DeleteByUidWith(db, user, ls, faults, k)) <==> !LosesEmail(db, user, ls, faults, k)
    decreases |ls|
  {
    if ls != [] && Owns(db, user, ls[0]) {
      var l := ls[0];
      var e := db.links[l].emailId;
      LinkAloneIff(db, l);
      DropIsCollection(db, {l}, e);
      hide Inv, DropIfUnlinked, RemoveLinks;
      if faults(k).EmailFails? {
        if LinksOf(db, e) == {l} {
          OrphanStays(RemoveLinks(db, {l}), user, ls[1..], faults, k + 1, e);
          OrphanBreaks(DeleteByUidWith(RemoveLinks(db, {l}), user, ls[1..], faults, k + 1), e);
        } else {
          FaultyDeleteIff(RemoveLinks(db, {l}), user, ls[1..], faults, k + 1);
        }
      } else if faults(k).NoFault? {
        FaultyDeleteIff(DeleteLink(db, l), user, ls[1..], faults, k + 1);
      }
    }
  }

  lemma OrphanBreaks(db: Db, e: int)
    requires IsOrphan(db, e)
    ensures !Inv(db)
  {
  }

  // ---- The code

  class MailStore {
    var db: Db

    constructor (initial: Db)
      ensures db == initial
    {
      db := initial;
    }

    /** DelEmail: one transaction; `fails` says which of the deletions, or the commit behind them, goes wrong. */
    method DelEmail(user: int, ids: seq<int>, forcedDel: bool, fails: nat -> bool) returns (ok: bool)
      modifies this
      ensures ok <==> forall k :: 0 <= k <= |ids| ==> !fails(k)
      ensures db == if ok then DeleteAll(old(db), user, ids, forcedDel) else old(db)
    {
      hide DeleteAll, DeleteOne;
      var session := db;
      assert ids[0..] == ids;
      for k := 0 to |ids|
        invariant forall j :: 0 <= j < k ==> !fails(j)
        invariant db == old(db)
        invariant DeleteAll(db, user, ids, forcedDel) == DeleteAll(session, user, ids[k..], forcedDel)
      {
        if fails(k) {
          return false;
        }
        DeleteAllStep(session, user, ids[k..], forcedDel);
        assert ids[k..][1..] == ids[k + 1..];
        session := DeleteOne(session, user, ids[k], forcedDel);
      }
      DeleteAllStep(session, user, ids[|ids|..], forcedDel);
      ok := !fails(|ids|);
      if ok {
        db := session;
      }
    }

    /** DelByUID. */
    method DelByUID(user: int, ids: seq<int>, faults: nat -> Fault)
      modifies this
      ensures db == DeleteByUidWith(old(db), user, ids, faults, 0)
    {
      hide DeleteByUidWith;
      assert ids[0..] == ids;
      for k := 0 to |ids|
        invariant DeleteByUidWith(old(db), user, ids, faults, 0) == DeleteByUidWith(db, user, ids[k..], faults, k)
      {
        DeleteByUidStep(db, user, ids[k..], faults, k);
        assert ids[k..][1..] == ids[k + 1..];
        var id := ids[k];
        if !Owns(db, user, id) || faults(k).LinkFails? {
          return;
        }
        var email := db.links[id].emailId;
        db := RemoveLinks(db, {id});
        if faults(k).CountFails? {
          return;
        }
        if |LinksOf(db, email)| == 0 && !faults(k).EmailFails? {
          db := db.(emails := db.emails - {email});
        }
      }
      DeleteByUidStep(db, user, ids[|ids|..], faults, |ids|);
    }

    /** copy2defaultbox and copy2userbox: a new link per message; the keys of the copies are returned in order. */
    method Copy(user: int, mails: seq<Copied>, group: int) returns (destUid: seq<int>)
      modifies this
      ensures db == CopyAll(old(db), user, mails, group)
      ensures |destUid| == |mails| && forall k :: 0 <= k < |mails| ==> destUid[k] == old(db).nextLink + k
    {
      hide CopyAll;
      destUid := [];
      assert mails[0..] == mails;
      for k := 0 to |mails|
        invariant CopyAll(old(db), user, mails, group) == CopyAll(db, user, mails[k..], group)
        invariant |destUid| == k && db.nextLink == old(db).nextLink + k
        invariant forall j :: 0 <= j < k ==> destUid[j] == old(db).nextLink + j
      {
        CopyAllStep(db, user, mails[k..], group);
        assert mails[k..][1..] == mails[k + 1..];
        var m := mails[k];
        destUid := destUid + [db.nextLink];
        db := InsertLink(db, Link(user, m.emailId, m.isRead, group, m.status));
      }
      CopyAllStep(db, user, mails[|mails|..], group);
    }

    /** forwardToLocalUser. The account may be unknown, and forwarding twice is forwarding once. */
    method ForwardToLocalUser(account: Option<int>, email: int, status: int) returns (ok: bool)
      modifies this
      ensures ok <==> email > 0 && account.Some?
      ensures db == if ok then ForwardTo(old(db), account.value, email, status) else old(db)
      ensures ok ==> ForwardTo(db, account.value, email, status) == db
    {
      if email <= 0 || account == None {
        return false;
      }
      var user := account.value;
      if |OwnLinks(db, user, {email})| > 0 {
        return true;
      }
      var key := db.nextLink;
      db := InsertLink(db, Link(user, email, 0, 0, status));
      assert key in OwnLinks(db, user, {email});
      ok := true;
    }

    /** MoveMailToGroup: whether a row was changed. */
    method MoveMailToGroup(user: int, emails: set<int>, group: int) returns (moved: bool)
      modifies this
      ensures db == Apply(old(db), DoMoveToGroup(user, emails, group))
      ensures moved <==> OwnLinks(old(db), user, emails) != {}
    {
      var rows := OwnLinks(db, user, emails);
      db := UpdateLinks(db, rows, None, Some(group), None);
      moved := rows != {};
    }

    /** Move2DefaultBox; the trash goes through a soft delete. */
    method MoveToDefaultBox(user: int, ids: seq<int>, box: Box, fails: nat -> bool) returns (ok: bool)
      modifies this
      ensures box.DeletedBox? ==> db == if ok then DeleteAll(old(db), user, ids, false) else old(db)
      ensures !box.DeletedBox? ==> ok && db == Apply(old(db), DoMoveToBox(user, (set e | e in ids), box))
    {
      if box == DeletedBox {
        ok := DelEmail(user, ids, false, fails);
      } else {
        db := UpdateLinks(db, OwnLinks(db, user, set e | e in ids), Some(BoxStatus(box)), Some(0), None);
        ok := true;
      }
    }
  }

  lemma DeleteAllStep(db: Db, user: int, emails: seq<int>, forced: bool)
    ensures DeleteAll(db, user, emails, forced) ==
            if emails == [] then db else DeleteAll(DeleteOne(db, user, emails[0], forced), user, emails[1..], forced)
  {
  }

  lemma DeleteByUidStep(db: Db, user: int, ls: seq<int>, faults: nat -> Fault, k: nat)
    ensures DeleteByUidWith(db, user, ls, faults, k) ==
            if ls == [] || !Owns(db, user, ls[0]) then db
            else
              match faults(k)
              case LinkFails => db
              case CountFails => RemoveLinks(db, {ls[0]})
              case EmailFails => DeleteByUidWith(RemoveLinks(db, {ls[0]}), user, ls[1..], faults, k + 1)
              case NoFault => DeleteByUidWith(DeleteLink(db, ls[0]), user, ls[1..], faults, k + 1)
  {
  }

  lemma CopyAllStep(db: Db, user: int, mails: seq<Copied>, group: int)
    ensures CopyAll(db, user, mails, group) ==
            if mails == [] then db
            else
              CopyAll(InsertLink(db, Link(user, mails[0].emailId, mails[0].isRead, group, mails[0].status)),
                      user, mails[1..], group)
  {
  }

  /** Moving to the trash one message at a time is one soft deletion of all of them. */
  lemma {:induction false} TrashIsSoftDelete(db: Db, user: int, ids: seq<int>)
    ensures DeleteAll(db, user, ids, false).links
         == UpdateLinks(db, OwnLinks(db, user, (set e | e in ids)), Some(DELETED), Some(0), None).links
    decreases |ids|
  {
    hide DeleteAll;
    DeleteAllStep(db, user, ids, false);
    if ids != [] {
      var step := DeleteOne(db, user, ids[0], false);
      TrashIsSoftDelete(step, user, ids[1..]);
      assert ids == [ids[0]] + ids[1..];
      var all, rest := set e | e in ids, set e | e in ids[1..];
      var goal := UpdateLinks(db, OwnLinks(db, user, all), Some(DELETED), Some(0), None).links;
      var got := UpdateLinks(step, OwnLinks(step, user, rest), Some(DELETED), Some(0), None).links;
      assert got.Keys == goal.Keys;
      forall l | l in goal
        ensures got[l] == goal[l]
      {
        assert db.links[l].emailId in all <==> db.links[l].emailId == ids[0] || db.links[l].emailId in rest;
      }
    } else {
      assert OwnLinks(db, user, (set e | e in ids)) == {};
    }
  }

  // ---- Row by row

  /** The status of the default boxes, and the one a rule gives. */
  function StatusNumber(b: Box, byRule: bool): int {
    match b
    case Inbox => 0
    case SentBox => if byRule then 0 else 1
    case DraftsBox => 4
    case DeletedBox => 3
    case JunkBox => 5
  }

  predicate IsOf(k: Link, user: int, email: int) { k.userId == user && k.emailId == email }

  /** What becomes of a link: what is moved, read or put into the trash is the user's own link to the email. */
  function Restyled(k: Link, op: Op): Link
    requires IsMove(op)
  {
    match op
    case DoDelete(user, emails, _) =>
      if k.userId == user && k.emailId in emails then k.(status := 3, groupId := 0) else k
    case DoMoveToGroup(user, moved, group) => if k.userId == user && k.emailId in moved then k.(groupId := group) else k
    case DoMoveToBox(user, moved, box) =>
      if k.userId == user && k.emailId in moved then k.(status := StatusNumber(box, false), groupId := 0) else k
    case DoRuleMove(user, email, box) =>
      if IsOf(k, user, email) then k.(status := StatusNumber(box, true), groupId := 0) else k
    case DoRuleGroup(user, email, group) => if IsOf(k, user, email) then k.(groupId := group) else k
    case DoRuleRead(user, email) => if IsOf(k, user, email) then k.(isRead := 1) else k
    case DoRuleDelete(user, email) => if IsOf(k, user, email) then k.(status := 3) else k
    case DoUnfile(groups) => if k.groupId in groups then k.(groupId := 0) else k
    case _ => k
  }

  /** Everything is a move but receiving, copying, forwarding, deletion by UID and forced deletion. */
  lemma MovesAre(op: Op)
    ensures IsMove(op) <==> !op.DoReceive? && !op.DoCopy? && !op.DoForward? && !op.DoDeleteByUid?
                            && !(op.DoDelete? && op.forced)
  {
  }

  /** A move restyles links one by one. */
  lemma MoveIs(db: Db, op: Op)
    requires IsMove(op)
    ensures Apply(db, op).links == map l | l in db.links :: Restyled(db.links[l], op)
  {
    hide DeleteAll;
    if op.DoDelete? {
      TrashIsSoftDelete(db, op.user, op.emails);
      var all := set e | e in op.emails;
      assert forall l :: l in OwnLinks(db, op.user, all)
                         <==> l in db.links && db.links[l].userId == op.user && db.links[l].emailId in op.emails;
    }
    var after := Apply(db, op).links;
    assert after.Keys == db.links.Keys;
    assert forall l :: l in db.links ==> after[l] == Restyled(db.links[l], op);
  }

  /** Of the emails only a rule's move to INBOX or Sent changes one, in its type. */
  lemma MoveTypes(db: Db, op: Op)
    requires IsMove(op)
    ensures Apply(db, op).emails
            == if op.DoRuleMove? && (op.box.Inbox? || op.box.SentBox?) && op.email in db.emails
               then db.emails[op.email := db.emails[op.email].(kind := if op.box.Inbox? then 0 else 1)] else db.emails
  {
    hide DeleteAll, OwnLinks, Updated;
    if op.DoDelete? {
      TrashKeepsEmails(db, op.user, op.emails);
    }
  }

  lemma {:induction false} TrashKeepsEmails(db: Db, user: int, emails: seq<int>)
    ensures DeleteAll(db, user, emails, false).emails == db.emails
    decreases |emails|
  {
    if emails != [] {
      TrashKeepsEmails(DeleteOne(db, user, emails[0], false), user, emails[1..]);
    }
  }

  /** Forced deletion, row by row: a link goes with its user and email, an email with its last link. */
  lemma ForcedDeleteIs(db: Db, user: int, emails: seq<int>)
    requires Inv(db)
    ensures var after := DeleteAll(db, user, emails, true);
            (forall l :: l in after.links
                         <==> l in db.links && !(db.links[l].userId == user && db.links[l].emailId in emails))
            && (forall l :: l in after.links ==> after.links[l] == db.links[l])
            && (forall e :: e in after.emails
                            <==> e in db.emails && exists l :: l in after.links && after.links[l].emailId == e)
            && (forall e :: e in after.emails ==> after.emails[e] == db.emails[e])
  {
    ForcedDeleteExact(db, user, emails);
    hide DeleteAll, Inv, LinksOf;
    CollectedIs(RemoveLinks(db, OwnLinks(db, user, (set e | e in emails))));
  }

  lemma CollectedIs(db: Db)
    ensures forall e :: e in Collected(db).emails
                        <==> e in db.emails && exists l :: l in db.links && db.links[l].emailId == e
  {
    forall e
      ensures LinksOf(db, e) != {} <==> exists l :: l in db.links && db.links[l].emailId == e
    {
      if l :| l in db.links && db.links[l].emailId == e {
        assert l in LinksOf(db, e);
      }
      if LinksOf(db, e) != {} {
        var l := Ids.Pick(LinksOf(db, e));
        assert l in db.links && db.links[l].emailId == e;
      }
    }
  }

  /** Copies are new links of the user, in order, to the emails and with the read marks and status of the originals. */
  lemma {:induction false} CopiesAre(db: Db, user: int, mails: seq<Copied>, group: int)
    requires WellKeyed(db) && forall m :: m in mails ==> m.emailId < db.nextEmail
    ensures var after := CopyAll(db, user, mails, group);
            after.emails == db.emails && after.nextLink == db.nextLink + |mails|
            && (forall l :: l in after.links <==> l in db.links || db.nextLink <= l < db.nextLink + |mails|)
            && (forall l :: l in db.links ==> after.links[l] == db.links[l])
            && forall k :: 0 <= k < |mails| ==>
                 after.links[db.nextLink + k] == Link(user, mails[k].emailId, mails[k].isRead, group, mails[k].status)
    decreases |mails|
  {
    hide CopyAll, WellKeyed;
    CopyAllStep(db, user, mails, group);
    Unkeyed(db);
    if mails != [] {
      var link := Link(user, mails[0].emailId, mails[0].isRead, group, mails[0].status);
      assert mails[0] in mails;
      InsertLinkKeyed(db, link);
      var next := InsertLink(db, link);
      CopiesAre(next, user, mails[1..], group);
      var after := CopyAll(next, user, mails[1..], group);
      forall k | 0 <= k < |mails|
        ensures after.links[db.nextLink + k]
                == Link(user, mails[k].emailId, mails[k].isRead, group, mails[k].status)
      {
        if k > 0 {
          assert mails[1..][k - 1] == mails[k];
          assert after.links[next.nextLink + (k - 1)].userId == user;
        }
      }
    }
  }

  lemma Unkeyed(db: Db)
    requires WellKeyed(db)
    ensures forall l :: l in db.links ==> l < db.nextLink
  {
  }

  /** Whoever receives a message gets one unread, unfiled link to the new email, in order. */
  lemma ReceivedAs(db: Db, row: EmailRow, users: seq<int>)
    requires WellKeyed(db)
    ensures var after := Receive(db, row, users);
            after.emails == db.emails[db.nextEmail := row] && after.nextEmail == db.nextEmail + 1
            && (forall l :: l in after.links <==> l in db.links || db.nextLink <= l < db.nextLink + |users|)
            && (forall l :: l in db.links ==> after.links[l] == db.links[l])
            && forall k :: 0 <= k < |users| ==>
                 after.links[db.nextLink + k] == Link(users[k], db.nextEmail, 0, 0, row.status)
  {
    hide WellKeyed, AddLinks;
    InsertEmailKeyed(db, row);
    AddLinksAre(InsertEmail(db, row), db.nextEmail, users, row.status);
  }

  lemma {:induction false} AddLinksAre(db: Db, email: int, users: seq<int>, status: int)
    requires WellKeyed(db) && email < db.nextEmail
    ensures var after := AddLinks(db, email, users, status);
            after.emails == db.emails && after.nextEmail == db.nextEmail && after.nextLink == db.nextLink + |users|
            && (forall l :: l in after.links <==> l in db.links || db.nextLink <= l < db.nextLink + |users|)
            && (forall l :: l in db.links ==> after.links[l] == db.links[l])
            && forall k :: 0 <= k < |users| ==> after.links[db.nextLink + k] == Link(users[k], email, 0, 0, status)
    decreases |users|
  {
    hide AddLinks, WellKeyed;
    Unkeyed(db);
    if users == [] {
      NobodyLinked(db, email, status);
    } else {
      AddLinksStep(db, email, users, status);
      var link := Link(users[0], email, 0, 0, status);
      InsertLinkKeyed(db, link);
      var next := InsertLink(db, link);
      AddLinksAre(next, email, users[1..], status);
      var after := AddLinks(next, email, users[1..], status);
      forall k | 0 <= k < |users|
        ensures after.links[db.nextLink + k] == Link(users[k], email, 0, 0, status)
      {
        if k > 0 {
          assert users[1..][k - 1] == users[k];
          assert after.links[next.nextLink + (k - 1)].emailId == email;
        }
      }
    }
  }

  lemma NobodyLinked(db: Db, email: int, status: int)
    ensures AddLinks(db, email, [], status) == db
  {
  }

  /** Forwarding to a local user adds an unread, unfiled link unless the user has one to the email. */
  lemma ForwardIs(db: Db, user: int, email: int, status: int)
    ensures ForwardTo(db, user, email, status)
            == if exists l :: l in db.links && db.links[l].userId == user && db.links[l].emailId == email then db
               else db.(links := db.links[db.nextLink := Link(user, email, 0, 0, status)], nextLink := db.nextLink + 1)
  {
    var own := OwnLinks(db, user, {email});
    if l :| l in db.links && db.links[l].userId == user && db.links[l].emailId == email {
      assert l in own;
    }
    if own != {} {
      var l := Ids.Pick(own);
      assert l in db.links && db.links[l].userId == user && db.links[l].emailId == email;
    }
  }
}
