/** IMAP message numbers: the listing of a default mailbox, its message count, and fetching by number. */
module Listing {
  import opened Bytes
  import opened MailDb
  import Ids
  import Store

  /**
   A listed message: its UID (the key of the link), its email and its sequence number. The queries do not select
   the status of the link, so the status of a listed message is the zero value.
   */
  datatype Item = Item(uid: int, emailId: int, isRead: int, serial: int, status: int)

  /** The links of a default mailbox, whatever group they are filed in. */
  function BoxRows(db: Db, user: int, status: int): set<int> {
    set l | l in db.links && db.links[l].userId == user && db.links[l].status == status
  }

  /** The links the query by sequence number numbers: those in no group. */
  function UnfiledRows(db: Db, user: int, status: int): set<int> {
    set l | l in BoxRows(db, user, status) && db.links[l].groupId == 0
  }

  /** ROW_NUMBER() OVER (ORDER BY id). */
  ghost function Numbered(db: Db, rows: set<int>): (items: seq<Item>)
    requires forall l :: l in rows ==> l in db.links
    ensures |items| == |rows|
  {
    var ids := Ids.Ascending(rows);
    assert forall l :: l in ids ==> l in rows;
    seq(|ids|, k requires 0 <= k < |ids| => Item(ids[k], db.links[ids[k]].emailId, db.links[ids[k]].isRead, k + 1, 0))
  }

  /** GetUEListByUID without bounds: what an IMAP client sees in the mailbox. */
  ghost function Listed(db: Db, user: int, status: int): seq<Item> {
    Numbered(db, BoxRows(db, user, status))
  }

  /** getGroupNum: the MESSAGES count of STATUS. */
  function MessageCount(db: Db, user: int, status: int): nat {
    |BoxRows(db, user, status)|
  }

  /** A request for messages by number; `end` 0 stands for '*'. */
  datatype Request = Request(numbers: seq<int>, star: int, end: int)

  predicate Wanted(r: Request, serial: int) {
    if r.star > 0 && r.end == 0 then serial >= r.star
    else if r.star > 0 && r.end > 0 then r.star <= serial <= r.end
    else serial in r.numbers
  }

  predicate IsEmptyRequest(r: Request) {
    r.numbers == [] && r.star == 0 && r.end == 0
  }

  function Picked(items: seq<Item>, r: Request): seq<Item> {
    if items == [] then []
    else (if Wanted(r, items[0].serial) then [items[0]] else []) + Picked(items[1..], r)
  }

  /** The last item of each email: later rows overwrite earlier ones in the map the answer is read from. */
  function LastByEmail(items: seq<Item>): map<int, Item>
    decreases |items|
  {
    if items == [] then map[]
    else LastByEmail(items[..|items| - 1])[items[|items| - 1].emailId := items[|items| - 1]]
  }

  /** GetEmailListByGroup on a default mailbox: the fetched emails with the UID and number they are given. */
  ghost function Fetched(db: Db, user: int, status: int, r: Request): map<int, Item> {
    if IsEmptyRequest(r) then map[]
    else
      var found := LastByEmail(Picked(Numbered(db, UnfiledRows(db, user, status)), r));
      map e | e in found && e in db.emails :: found[e]
  }

  // ---- The code that turns the picked rows into an answer

  /** The tail of GetEmailListByGroup: a map from email to row, then one answer per email that exists. */
  method Answer(ue: seq<Item>, emails: map<int, EmailRow>) returns (ret: map<int, Item>)
    ensures ret == map e | e in LastByEmail(ue) && e in emails :: LastByEmail(ue)[e]
  {
    hide LastByEmail;
    var ueMap: map<int, Item> := map[];
    LastByEmailStep(ue, 0);
    for k := 0 to |ue|
      invariant ueMap == LastByEmail(ue[..k])
    {
      ueMap := ueMap[ue[k].emailId := ue[k]];
      LastByEmailStep(ue, k);
    }
    assert ue[..|ue|] == ue;
    ret := map[];
    var left := ueMap.Keys * emails.Keys;
    while left != {}
      invariant left <= ueMap.Keys * emails.Keys
      invariant ret == map e | e in ueMap && e in emails && e !in left :: ueMap[e]
      decreases left
    {
      ghost var some := Ids.Pick(left);
      var e :| e in left;
      ret := ret[e := ueMap[e]];
      left := left - {e};
    }
  }

  lemma LastByEmailStep(ue: seq<Item>, k: nat)
    requires k <= |ue|
    ensures LastByEmail(ue[..0]) == map[]
    ensures k < |ue| ==> LastByEmail(ue[..k + 1]) == LastByEmail(ue[..k])[ue[k].emailId := ue[k]]
  {
    if k < |ue| {
      assert ue[..k + 1][..k] == ue[..k];
    }
  }

  // ---- Properties

  lemma RowsListed(db: Db, user: int, status: int)
    ensures var items := Listed(db, user, status);
            |items| == MessageCount(db, user, status)
            && (forall k :: 0 <= k < |items| ==> items[k].serial == k + 1 && items[k].uid in BoxRows(db, user, status))
            && (forall j, k :: 0 <= j < k < |items| ==> items[j].uid < items[k].uid)
            && (forall l :: l in BoxRows(db, user, status) <==> exists k :: 0 <= k < |items| && items[k].uid == l)
  {
    var rows := BoxRows(db, user, status);
    var ids := Ids.Ascending(rows);
    var items := Listed(db, user, status);
    assert forall k :: 0 <= k < |ids| ==> items[k].uid == ids[k] && ids[k] in ids;
    forall l
      ensures l in rows <==> exists k :: 0 <= k < |items| && items[k].uid == l
    {
      if l in rows {
        assert l in ids;
        var k :| 0 <= k < |ids| && ids[k] == l;
        assert items[k].uid == l;
      }
      if k :| 0 <= k < |items| && items[k].uid == l {
        assert ids[k] in ids;
      }
    }
  }

  /** The key of a link in the default mailbox of a user. */
  predicate IsInBox(db: Db, l: int, user: int, status: int) {
    l in db.links && db.links[l].userId == user && db.links[l].status == status
  }

  /**
   Exactly the user's links with the status of the mailbox are listed, each with its email and its read mark; numbers
   are 1 to n in the order of the UIDs, and n is the message count.
   */
  lemma NumbersAreDense(db: Db, user: int, status: int)
    ensures var items := Listed(db, user, status);
            |items| == MessageCount(db, user, status)
            && (forall k :: 0 <= k < |items| ==>
                  items[k].serial == k + 1 && IsInBox(db, items[k].uid, user, status)
                  && items[k].emailId == db.links[items[k].uid].emailId
                  && items[k].isRead == db.links[items[k].uid].isRead)
            && (forall j, k :: 0 <= j < k < |items| ==> items[j].uid < items[k].uid)
            && (forall l :: IsInBox(db, l, user, status) <==> exists k :: 0 <= k < |items| && items[k].uid == l)
  {
    RowsListed(db, user, status);
    assert forall l :: IsInBox(db, l, user, status) <==> l in BoxRows(db, user, status);
  }

  function Single(k: int): Request { Request([], k, k) }

  /** Of a numbered list, one number picks one item. */
  lemma {:induction false} PickOne(items: seq<Item>, k: int, first: int)
    requires forall i :: 0 <= i < |items| ==> items[i].serial == first + i
    requires k > 0
    ensures Picked(items, Single(k)) == if first <= k < first + |items| then [items[k - first]] else []
  {
    if items != [] {
      PickOne(items[1..], k, first + 1);
      if k == first {
        assert Picked(items[1..], Single(k)) == [];
      } else if first < k < first + |items| {
        assert items[1..][k - first - 1] == items[k - first];
      }
    }
  }

  lemma NumberedSerials(db: Db, rows: set<int>)
    requires forall l :: l in rows ==> l in db.links
    ensures forall i :: 0 <= i < |Numbered(db, rows)| ==>
              Numbered(db, rows)[i].serial == 1 + i && Numbered(db, rows)[i].uid in rows
              && Numbered(db, rows)[i].emailId == db.links[Numbered(db, rows)[i].uid].emailId
  {
    var ids := Ids.Ascending(rows);
    forall i | 0 <= i < |ids|
      ensures ids[i] in rows
    {
      assert ids[i] in ids;
    }
  }

  /** What a client gets for one number. */
  lemma FetchOne(db: Db, user: int, status: int, k: int)
    requires Store.NoOrphans(db) && k > 0
    ensures var items := Numbered(db, UnfiledRows(db, user, status));
            Fetched(db, user, status, Single(k))
            == if k <= |items| then map[items[k - 1].emailId := items[k - 1]] else map[]
  {
    hide Numbered;
    var items := Numbered(db, UnfiledRows(db, user, status));
    NumberedSerials(db, UnfiledRows(db, user, status));
    PickOne(items, k, 1);
    if k <= |items| {
      var one := [items[k - 1]];
      assert one[..0] == [];
      assert LastByEmail(one) == LastByEmail([])[one[0].emailId := one[0]];
      assert one[0].emailId in db.emails;
    }
  }

  /**
   Section 2.3.1.2: the number a listing shows and the number a fetch uses name the same message, for every
   message of the mailbox, exactly when no message of the mailbox is filed in a group.
   */
  lemma FetchAgreesIff(db: Db, user: int, status: int)
    requires Store.NoOrphans(db)
    ensures (forall k :: 0 < k <= |Listed(db, user, status)| ==>
               var item := Listed(db, user, status)[k - 1];
               Fetched(db, user, status, Single(k)) == map[item.emailId := item])
            <==> forall l :: IsInBox(db, l, user, status) ==> db.links[l].groupId == 0
  {
    hide Numbered, Fetched;
    assert forall l :: IsInBox(db, l, user, status) <==> l in BoxRows(db, user, status);
    var rows, unfiled := BoxRows(db, user, status), UnfiledRows(db, user, status);
    var n := |Listed(db, user, status)|;
    if forall l :: l in rows ==> db.links[l].groupId == 0 {
      assert unfiled == rows;
      forall k | 0 < k <= n
        ensures var item := Listed(db, user, status)[k - 1];
                Fetched(db, user, status, Single(k)) == map[item.emailId := item]
      {
        FetchOne(db, user, status, k);
      }
    } else {
      var l :| l in rows && db.links[l].groupId != 0;
      SmallerSubset(unfiled, rows, l);
      assert n == |rows| && |unfiled| < n;
      FetchOne(db, user, status, n);
      var item := Listed(db, user, status)[n - 1];
      assert item.emailId in map[item.emailId := item];
      assert Fetched(db, user, status, Single(n)) != map[item.emailId := item];
    }
  }

  lemma SmallerSubset<T>(a: set<T>, b: set<T>, x: T)
    requires a <= b && x in b && x !in a
    ensures |a| < |b|
  {
    assert a <= b - {x};
    SubsetSize(a, b - {x});
  }

  lemma {:induction false} SubsetSize<T>(a: set<T>, b: set<T>)
    requires a <= b
    ensures |a| <= |b|
  {
    assert b == a + (b - a);
  }

  lemma InsertSize(m: map<int, Item>, e: int, item: Item)
    ensures |m[e := item]| == |m| + if e in m then 0 else 1
  {
    if e in m {
      assert m[e := item].Keys == m.Keys;
    } else {
      assert m[e := item].Keys == m.Keys + {e};
    }
    assert |m[e := item].Keys| == |m[e := item]| && |m.Keys| == |m|;
  }

  predicate Mentions(items: seq<Item>, e: int) {
    exists i :: 0 <= i < |items| && items[i].emailId == e
  }

  predicate DistinctEmails(items: seq<Item>) {
    forall i, j :: 0 <= i < j < |items| ==> items[i].emailId != items[j].emailId
  }

  lemma MentionsStep(items: seq<Item>, n: nat)
    requires |items| == n + 1
    ensures forall e :: Mentions(items, e) <==> Mentions(items[..n], e) || e == items[n].emailId
    ensures DistinctEmails(items) <==> DistinctEmails(items[..n]) && !Mentions(items[..n], items[n].emailId)
  {
    var front := items[..n];
    forall e
      ensures Mentions(items, e) <==> Mentions(front, e) || e == items[n].emailId
    {
      if Mentions(front, e) {
        var i :| 0 <= i < n && front[i].emailId == e;
        assert items[i].emailId == e;
      }
      if Mentions(items, e) && e != items[n].emailId {
        var i :| 0 <= i <= n && items[i].emailId == e;
        assert front[i].emailId == e;
      }
    }
    if DistinctEmails(items) {
      assert forall i :: 0 <= i < n ==> front[i] == items[i];
    } else if !Mentions(front, items[n].emailId) {
      var i, j :| 0 <= i < j <= n && items[i].emailId == items[j].emailId;
      assert front[i] == items[i];
      assert j < n;
      assert front[j] == items[j];
    }
  }

  /** A fetch of several numbers loses a message exactly when two of the numbered messages are one email. */
  lemma {:induction false} LastByEmailIff(items: seq<Item>)
    ensures forall e :: e in LastByEmail(items) <==> Mentions(items, e)
    ensures |LastByEmail(items)| <= |items|
    ensures |LastByEmail(items)| == |items| <==> DistinctEmails(items)
    decreases |items|
  {
    hide LastByEmail, Mentions, DistinctEmails;
    if items == [] {
      LastByEmailStep(items, 0);
      assert items[..0] == [];
      NoneMentioned(items);
    } else {
      var n := |items| - 1;
      LastByEmailStep(items, n);
      assert items[..n + 1] == items;
      LastByEmailIff(items[..n]);
      MentionsStep(items, n);
      InsertSize(LastByEmail(items[..n]), items[n].emailId, items[n]);
    }
  }

  lemma NoneMentioned(items: seq<Item>)
    requires items == []
    ensures DistinctEmails(items) && forall e :: !Mentions(items, e)
  {
  }

  // ---- Fetching the whole mailbox

  /** "1:*". */
  const EVERYTHING := Request([], 1, 0)

  lemma {:induction false} PickAll(items: seq<Item>)
    requires forall i :: 0 <= i < |items| ==> items[i].serial >= 1
    ensures Picked(items, EVERYTHING) == items
  {
    if items != [] {
      PickAll(items[1..]);
      assert items == [items[0]] + items[1..];
    }
  }

  /** Each email is answered with one of its rows, and with the last of them. */
  lemma {:induction false} LastByEmailIsOne(items: seq<Item>, e: int)
    requires e in LastByEmail(items)
    ensures exists i :: 0 <= i < |items| && items[i].emailId == e && LastByEmail(items)[e] == items[i]
    decreases |items|
  {
    var n := |items| - 1;
    if items[n].emailId != e {
      LastByEmailIsOne(items[..n], e);
      var i :| 0 <= i < n && items[..n][i].emailId == e && LastByEmail(items[..n])[e] == items[..n][i];
      assert items[i] == items[..n][i];
    }
  }

  lemma {:induction false} PickedFrom(items: seq<Item>, r: Request)
    ensures forall x :: x in Picked(items, r) <==> x in items && Wanted(r, x.serial)
  {
    hide Wanted;
    if items != [] {
      PickedFrom(items[1..], r);
      assert items == [items[0]] + items[1..];
    }
  }

  /** Where no email is missing, a fetch answers with the last of the wanted rows of each email. */
  lemma FetchedRows(db: Db, user: int, status: int, r: Request)
    requires Store.NoOrphans(db) && !IsEmptyRequest(r)
    ensures Fetched(db, user, status, r) == LastByEmail(Picked(Numbered(db, UnfiledRows(db, user, status)), r))
  {
    hide Numbered, LastByEmail, Picked, Wanted;
    var items := Numbered(db, UnfiledRows(db, user, status));
    NumberedSerials(db, UnfiledRows(db, user, status));
    PickedFrom(items, r);
    var picked := Picked(items, r);
    LastByEmailIff(picked);
    forall e | e in LastByEmail(picked)
      ensures e in db.emails
    {
      var i :| 0 <= i < |picked| && picked[i].emailId == e;
      assert picked[i] in items;
      assert picked[i].uid in db.links;
    }
  }

  lemma FetchEverything(db: Db, user: int, status: int)
    requires Store.NoOrphans(db)
    ensures Fetched(db, user, status, EVERYTHING) == LastByEmail(Numbered(db, UnfiledRows(db, user, status)))
  {
    hide Numbered, LastByEmail, Fetched, Picked;
    FetchedRows(db, user, status, EVERYTHING);
    NumberedSerials(db, UnfiledRows(db, user, status));
    PickAll(Numbered(db, UnfiledRows(db, user, status)));
  }

  lemma {:induction false} PickStretch(items: seq<Item>, r: Request, lo: nat, hi: nat)
    requires lo <= hi <= |items| && forall i :: 0 <= i < |items| ==> (Wanted(r, items[i].serial) <==> lo <= i < hi)
    ensures Picked(items, r) == items[lo..hi]
  {
    hide Wanted;
    if items != [] {
      var rest := items[1..];
      var first := if Wanted(r, items[0].serial) then [items[0]] else [];
      assert Wanted(r, items[0].serial) <==> lo == 0 < hi;
      assert forall i :: 0 <= i < |rest| ==> rest[i] == items[i + 1];
      var l, h := if lo == 0 then 0 else lo - 1, if hi == 0 then 0 else hi - 1;
      PickStretch(rest, r, l, h);
      assert items[lo..hi] == first + rest[l..h];
    }
  }

  function Clamp(x: int, n: nat): nat { if x < 0 then 0 else if x > n then n else x }

  /** "a:b" answers with the emails of the messages a to b of the box, "a:*" with those from a on. */
  lemma FetchRange(db: Db, user: int, status: int, a: nat, b: nat)
    requires Store.NoOrphans(db) && 0 < a && (b == 0 || a <= b)
    ensures var items := Numbered(db, UnfiledRows(db, user, status));
            var lo, hi := Clamp(a - 1, |items|), if b == 0 then |items| else Clamp(b, |items|);
            Fetched(db, user, status, Request([], a, b)) == LastByEmail(items[lo..hi])
  {
    hide Numbered, LastByEmail, Fetched, Picked;
    FetchedRows(db, user, status, Request([], a, b));
    NumberedSerials(db, UnfiledRows(db, user, status));
    var items := Numbered(db, UnfiledRows(db, user, status));
    PickStretch(items, Request([], a, b), Clamp(a - 1, |items|), if b == 0 then |items| else Clamp(b, |items|));
  }

  /** A request without a range to go by answers with exactly the emails of the messages of the box that have them. */
  lemma FetchList(db: Db, user: int, status: int, numbers: seq<int>, star: int, end: int)
    requires Store.NoOrphans(db) && (star <= 0 || end < 0)
    ensures var items := Numbered(db, UnfiledRows(db, user, status));
            var found := Fetched(db, user, status, Request(numbers, star, end));
            (forall e :: e in found <==> exists k :: 0 <= k < |items| && k + 1 in numbers && items[k].emailId == e)
            && (forall e :: e in found ==>
                  found[e].emailId == e && found[e] in items && found[e].serial in numbers)
  {
    hide Numbered, LastByEmail, Picked;
    var r, items := Request(numbers, star, end), Numbered(db, UnfiledRows(db, user, status));
    NumberedSerials(db, UnfiledRows(db, user, status));
    if !IsEmptyRequest(r) {
      FetchedRows(db, user, status, r);
      PickedFrom(items, r);
      var picked := Picked(items, r);
      LastByEmailIff(picked);
      forall e | exists k :: 0 <= k < |items| && k + 1 in numbers && items[k].emailId == e
        ensures Mentions(picked, e)
      {
        var k :| 0 <= k < |items| && k + 1 in numbers && items[k].emailId == e;
        assert items[k] in picked;
      }
      forall e | e in LastByEmail(picked)
        ensures LastByEmail(picked)[e] in picked && LastByEmail(picked)[e].emailId == e
      {
        LastByEmailIsOne(picked, e);
      }
      forall e | Mentions(picked, e)
        ensures exists k :: 0 <= k < |items| && k + 1 in numbers && items[k].emailId == e
      {
        var i :| 0 <= i < |picked| && picked[i].emailId == e;
        assert picked[i] in items;
      }
    }
  }

  /** The answer to "1:*" has the message, with the UID and the number the listing gives it. */
  ghost predicate FetchedAs(db: Db, user: int, status: int, item: Item) {
    var found := Fetched(db, user, status, EVERYTHING);
    item.emailId in found && found[item.emailId] == item
  }

  lemma FetchAllRows(db: Db, user: int, status: int)
    requires Store.NoOrphans(db)
    ensures (forall k :: 0 <= k < |Listed(db, user, status)| ==>
               FetchedAs(db, user, status, Listed(db, user, status)[k]))
            <==> (forall l :: l in BoxRows(db, user, status) ==> db.links[l].groupId == 0)
                 && DistinctEmails(Listed(db, user, status))
  {
    hide Numbered, Fetched, LastByEmail, BoxRows, UnfiledRows;
    AllUnfiled(db, user, status);
    var items := Listed(db, user, status);
    var unfiled := Numbered(db, UnfiledRows(db, user, status));
    FetchEverything(db, user, status);
    NumberedSerials(db, UnfiledRows(db, user, status));
    if (forall l :: l in BoxRows(db, user, status) ==> db.links[l].groupId == 0) && DistinctEmails(items) {
      LastByEmailIff(items);
      forall k | 0 <= k < |items|
        ensures FetchedAs(db, user, status, items[k])
      {
        LastByEmailIsOne(items, items[k].emailId);
      }
    }
    if forall k :: 0 <= k < |items| ==> FetchedAs(db, user, status, items[k]) {
      forall l | l in BoxRows(db, user, status)
        ensures db.links[l].groupId == 0
      {
        RowsListed(db, user, status);
        var k :| 0 <= k < |items| && items[k].uid == l;
        assert FetchedAs(db, user, status, items[k]);
        LastByEmailIsOne(unfiled, items[k].emailId);
      }
      OneUidEach(db, user, status);
    }
  }

  /**
   A fetch of the whole mailbox agrees with the listing for every message exactly when no message is filed in a
   group and no email is linked twice.
   */
  lemma FetchAllIff(db: Db, user: int, status: int)
    requires Store.NoOrphans(db)
    ensures (forall k :: 0 <= k < |Listed(db, user, status)| ==>
               FetchedAs(db, user, status, Listed(db, user, status)[k]))
            <==> (forall l :: IsInBox(db, l, user, status) ==> db.links[l].groupId == 0)
                 && DistinctEmails(Listed(db, user, status))
  {
    hide Listed, FetchedAs, DistinctEmails;
    FetchAllRows(db, user, status);
    assert forall l :: IsInBox(db, l, user, status) <==> l in BoxRows(db, user, status);
  }

  lemma AllUnfiled(db: Db, user: int, status: int)
    ensures forall l :: l in BoxRows(db, user, status) ==> l in db.links
    ensures (forall l :: l in BoxRows(db, user, status) ==> db.links[l].groupId == 0)
            ==> UnfiledRows(db, user, status) == BoxRows(db, user, status)
    ensures forall l :: l in UnfiledRows(db, user, status) ==> l in db.links && db.links[l].groupId == 0
  {
    var rows, unfiled := BoxRows(db, user, status), UnfiledRows(db, user, status);
    if forall l :: l in rows ==> db.links[l].groupId == 0 {
      assert unfiled == rows;
    }
  }

  /** Two rows of one email cannot both be the answer for it. */
  lemma OneUidEach(db: Db, user: int, status: int)
    requires forall k :: 0 <= k < |Listed(db, user, status)| ==>
               FetchedAs(db, user, status, Listed(db, user, status)[k])
    ensures DistinctEmails(Listed(db, user, status))
  {
    hide Listed, Fetched;
    NumbersAreDense(db, user, status);
    var items := Listed(db, user, status);
    forall i, j | 0 <= i < j < |items|
      ensures items[i].emailId != items[j].emailId
    {
      assert FetchedAs(db, user, status, items[i]) && FetchedAs(db, user, status, items[j]);
    }
  }
}
