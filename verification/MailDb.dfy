/** The tables that hold mail: `email` rows and the `user_email` rows that link them to users. */
module MailDb {
  import opened Bytes

  /** consts.EmailStatus*. */
  const WAIT := 0
  const SENT := 1
  const FAIL := 2
  const DELETED := 3
  const DRAFTS := 4
  const JUNK := 5
  const PENDING := 6

  /** consts.EmailType*. */
  const RECEIVE := 0
  const SEND := 1

  datatype EmailRow = EmailRow(kind: int, status: int, error: Option<bytes>)

  datatype Link = Link(userId: int, emailId: int, isRead: int, groupId: int, status: int)

  /** Both tables by primary key, and the next keys of their autoincrement columns. */
  datatype Db = Db(emails: map<int, EmailRow>, links: map<int, Link>, nextEmail: int, nextLink: int)

  /** Keys are positive and were handed out in order; a link names an email key that was handed out. */
  predicate WellKeyed(db: Db) {
    0 < db.nextEmail && 0 < db.nextLink
    && (forall e :: e in db.emails ==> 0 < e < db.nextEmail)
    && (forall l :: l in db.links ==> 0 < l < db.nextLink && db.links[l].emailId < db.nextEmail)
  }

  /** The keys of the links to one email. */
  function LinksOf(db: Db, email: int): set<int> {
    set l | l in db.links && db.links[l].emailId == email
  }

  lemma Singleton<T>(s: set<T>) returns (x: T)
    requires |s| == 1
    ensures s == {x}
  {
    x :| x in s;
    assert |s - {x}| == 0;
  }

  function InsertEmail(db: Db, row: EmailRow): Db {
    db.(emails := db.emails[db.nextEmail := row], nextEmail := db.nextEmail + 1)
  }

  function InsertLink(db: Db, link: Link): Db {
    db.(links := db.links[db.nextLink := link], nextLink := db.nextLink + 1)
  }

  lemma InsertEmailKeyed(db: Db, row: EmailRow)
    requires WellKeyed(db)
    ensures WellKeyed(InsertEmail(db, row)) && db.nextEmail !in db.emails && LinksOf(db, db.nextEmail) == {}
  {
    assert forall l :: l in LinksOf(db, db.nextEmail) ==> db.links[l].emailId < db.nextEmail;
  }

  lemma InsertLinkKeyed(db: Db, link: Link)
    requires WellKeyed(db) && link.emailId < db.nextEmail
    ensures WellKeyed(InsertLink(db, link)) && db.nextLink !in db.links
    ensures forall e :: LinksOf(InsertLink(db, link), e)
                     == LinksOf(db, e) + (if e == link.emailId then {db.nextLink} else {})
  {
  }
}
