/** The evaluator of IMAP SEARCH: a tree of criteria applied to the listing of a mailbox. */
module Search {
  import opened Bytes
  import opened Substrings
  import opened MailDb
  import opened Listing
  import Ids

  // ---- Criteria

  /** A point in time in nanoseconds since the zero time, and the fixed offset of its zone. */
  datatype Time = Time(instant: int, offset: int)

  const DAY := 86_400_000_000_000

  predicate IsZero(t: Time) { t.instant == 0 }

  predicate Before(a: Time, b: Time) { a.instant < b.instant }

  /** truncateToDate: midnight of the date, in the zone of the date. */
  function TruncateToDate(t: Time): Time {
    Time(t.instant - (t.instant + t.offset) % DAY, t.offset)
  }

  datatype Flag = Seen | Deleted | Draft | Junk | Answered | Flagged | OtherFlag(name: bytes)

  datatype HeaderField = HeaderField(key: bytes, value: bytes)

  /** A UID or sequence set is the set of 32-bit numbers it contains. */
  datatype Criteria = Criteria(
    uid: seq<set<int>>, seqNum: seq<set<int>>,
    since: Time, before: Time, sentSince: Time, sentBefore: Time,
    header: seq<HeaderField>, body: seq<bytes>, text: seq<bytes>,
    flag: seq<Flag>, notFlag: seq<Flag>, larger: int, smaller: int,
    not: seq<Criteria>, or: seq<OrPair>)

  datatype OrPair = OrPair(first: Criteria, second: Criteria)

  datatype Email = Email(
    createTime: Time, sendDate: Time, size: int, subject: bytes, fromAddress: bytes, fromName: bytes,
    to: bytes, cc: bytes, bcc: bytes, replyTo: bytes, sender: bytes, plain: Option<bytes>, html: Option<bytes>)

  /** What a search reads: the listing of the mailbox, the emails by key, and strings.ToLower. */
  datatype Mailbox = Mailbox(list: seq<Item>, emails: map<int, Email>, lower: bytes -> bytes)

  function Uint32(n: int): int { n % 0x1_0000_0000 }

  predicate IsEmptyCriteria(c: Criteria) {
    c.uid == [] && c.seqNum == [] && IsZero(c.since) && IsZero(c.before) && IsZero(c.sentSince)
    && IsZero(c.sentBefore) && c.header == [] && c.body == [] && c.text == [] && c.flag == [] && c.notFlag == []
    && c.larger == 0 && c.smaller == 0 && c.not == [] && c.or == []
  }

  predicate NeedsEmailData(c: Criteria) {
    !IsZero(c.since) || !IsZero(c.before) || !IsZero(c.sentSince) || !IsZero(c.sentBefore)
    || c.header != [] || c.body != [] || c.text != [] || c.larger > 0 || c.smaller > 0
  }

  // ---- Leaf predicates

  predicate HasFlag(item: Item, flag: Flag) {
    match flag
    case Seen => item.isRead == 1
    case Deleted => item.status == DELETED
    case Draft => item.status == DRAFTS
    case Junk => item.status == JUNK
    case _ => false
  }

  predicate MatchesHeader(lower: bytes -> bytes, email: Email, key: bytes, value: bytes) {
    var k, v := lower(key), lower(value);
    if k == Ascii("subject") then Includes(lower(email.subject), v)
    else if k == Ascii("from") then Includes(lower(email.fromAddress), v) || Includes(lower(email.fromName), v)
    else if k == Ascii("to") then Includes(lower(email.to), v)
    else if k == Ascii("cc") then Includes(lower(email.cc), v)
    else if k == Ascii("bcc") then Includes(lower(email.bcc), v)
    else if k == Ascii("reply-to") then Includes(lower(email.replyTo), v)
    else if k == Ascii("sender") then Includes(lower(email.sender), v)
    else false
  }

  predicate MatchesBody(lower: bytes -> bytes, email: Email, pattern: bytes) {
    (email.plain.Some? && Includes(lower(email.plain.value), lower(pattern)))
    || (email.html.Some? && Includes(lower(email.html.value), lower(pattern)))
  }

  predicate MatchesText(lower: bytes -> bytes, email: Email, pattern: bytes) {
    Includes(lower(email.subject), lower(pattern)) || Includes(lower(email.fromAddress), lower(pattern))
    || Includes(lower(email.fromName), lower(pattern)) || Includes(lower(email.to), lower(pattern))
    || Includes(lower(email.cc), lower(pattern)) || Includes(lower(email.bcc), lower(pattern))
    || MatchesBody(lower, email, lower(pattern))
  }

  // ---- The pointwise semantics the evaluator refines

  predicate InSome(sets: seq<set<int>>, n: int) {
    exists i :: 0 <= i < |sets| && n in sets[i]
  }

  predicate InEvery(sets: seq<set<int>>, n: int) {
    forall i :: 0 <= i < |sets| ==> n in sets[i]
  }

  predicate FlagsMatch(item: Item, flags: seq<Flag>, notFlags: seq<Flag>) {
    (forall i :: 0 <= i < |flags| ==> HasFlag(item, flags[i]))
    && (forall i :: 0 <= i < |notFlags| ==> !HasFlag(item, notFlags[i]))
  }

  /** The number of the calendar day of `t` in a zone. */
  function DayNumber(t: Time, zone: int): int { (t.instant + zone) / DAY }

  predicate OnOrAfter(t: Time, date: Time) {
    IsZero(date) || DayNumber(t, date.offset) >= DayNumber(date, date.offset)
  }

  predicate EarlierThan(t: Time, date: Time) {
    IsZero(date) || DayNumber(t, date.offset) < DayNumber(date, date.offset)
  }

  /** What the criteria ask of the email itself; dates are compared by calendar day (section 6.4.4 of RFC 3501). */
  predicate EmailMatches(lower: bytes -> bytes, e: Email, c: Criteria) {
    OnOrAfter(e.createTime, c.since) && EarlierThan(e.createTime, c.before)
    && OnOrAfter(e.sendDate, c.sentSince) && EarlierThan(e.sendDate, c.sentBefore)
    && (c.larger > 0 ==> e.size > c.larger) && (c.smaller > 0 ==> e.size < c.smaller)
    && (forall i :: 0 <= i < |c.header| ==> MatchesHeader(lower, e, c.header[i].key, c.header[i].value))
    && (forall i :: 0 <= i < |c.body| ==> MatchesBody(lower, e, c.body[i]))
    && (forall i :: 0 <= i < |c.text| ==> MatchesText(lower, e, c.text[i]))
  }

  predicate DataMatches(m: Mailbox, c: Criteria, item: Item) {
    NeedsEmailData(c) ==> item.emailId in m.emails && EmailMatches(m.lower, m.emails[item.emailId], c)
  }

  predicate NoneOf(m: Mailbox, cs: seq<Criteria>, item: Item) {
    forall i :: 0 <= i < |cs| ==> !Sat(m, cs[i], item)
  }

  predicate EitherOf(m: Mailbox, pair: OrPair, item: Item) {
    Sat(m, pair.first, item) || Sat(m, pair.second, item)
  }

  predicate SomePair(m: Mailbox, pairs: seq<OrPair>, item: Item) {
    exists i :: 0 <= i < |pairs| && EitherOf(m, pairs[i], item)
  }

  /** What the evaluator decides for one message: it joins the sets, and the pairs of OR, by "or". */
  predicate Sat(m: Mailbox, c: Criteria, item: Item) {
    (c.uid != [] ==> InSome(c.uid, Uint32(item.uid)))
    && (c.seqNum != [] ==> InSome(c.seqNum, Uint32(item.serial)))
    && DataMatches(m, c, item)
    && FlagsMatch(item, c.flag, c.notFlag)
    && NoneOf(m, c.not, item)
    && (c.or != [] ==> SomePair(m, c.or, item))
  }

  predicate Unique(list: seq<Item>) {
    forall i, j :: 0 <= i < j < |list| ==> list[i].uid != list[j].uid
  }

  /** The items a test accepts, in order. */
  function Filter(list: seq<Item>, p: Item -> bool): (r: seq<Item>)
    ensures forall x :: x in r <==> x in list && p(x)
  {
    if list == [] then [] else (if p(list[0]) then [list[0]] else []) + Filter(list[1..], p)
  }

  lemma Unfold(list: seq<Item>, p: Item -> bool, k: nat)
    requires k <= |list|
    ensures k < |list|
            ==> Filter(list[k..], p) == (if p(list[k]) then [list[k]] else []) + Filter(list[k + 1..], p)
    ensures k == |list| ==> Filter(list[k..], p) == []
  {
    if k < |list| {
      assert list[k..][1..] == list[k + 1..];
    }
  }

  lemma Rejoin(a: seq<Item>, b: seq<Item>, c: seq<Item>)
    ensures a + (b + c) == (a + b) + c
    ensures b == [] ==> a + b == a
  {
  }

  /** One turn of a filtering loop. */
  lemma Advance(list: seq<Item>, p: Item -> bool, k: nat, before: seq<Item>, after: seq<Item>)
    requires k < |list| && before + Filter(list[k..], p) == Filter(list, p)
    requires after == if p(list[k]) then before + [list[k]] else before
    ensures after + Filter(list[k + 1..], p) == Filter(list, p)
  {
    hide Filter;
    Unfold(list, p, k);
    Rejoin(before, if p(list[k]) then [list[k]] else [], Filter(list[k + 1..], p));
  }

  lemma {:induction false} Chain(base: seq<Item>, p: Item -> bool, q: Item -> bool, r: Item -> bool)
    requires forall x :: x in base ==> (r(x) <==> p(x) && q(x))
    ensures Filter(Filter(base, p), q) == Filter(base, r)
  {
    if base != [] {
      Chain(base[1..], p, q, r);
      var x, rest := base[0], Filter(base[1..], p);
      assert x in base;
      if p(x) {
        assert ([x] + rest)[1..] == rest;
      } else {
        assert [] + rest == rest;
      }
    }
  }

  lemma {:induction false} All(base: seq<Item>, p: Item -> bool)
    requires forall x :: x in base ==> p(x)
    ensures Filter(base, p) == base
  {
    if base != [] {
      All(base[1..], p);
      assert base == [base[0]] + base[1..];
    }
  }

  // ---- The evaluator

  lemma DayOrder(t: Time, date: Time)
    ensures Before(t, TruncateToDate(date)) <==> DayNumber(t, date.offset) < DayNumber(date, date.offset)
  {
  }

  /** matchesEmailCriteria. */
  method MatchesEmailCriteria(lower: bytes -> bytes, email: Email, criteria: Criteria) returns (ok: bool)
    ensures ok == EmailMatches(lower, email, criteria)
  {
    hide Includes, MatchesHeader, MatchesBody, MatchesText, TruncateToDate, DayNumber;
    DayOrder(email.createTime, criteria.since);
    DayOrder(email.createTime, criteria.before);
    DayOrder(email.sendDate, criteria.sentSince);
    DayOrder(email.sendDate, criteria.sentBefore);
    if !IsZero(criteria.since) && Before(email.createTime, TruncateToDate(criteria.since)) {
      return false;
    }
    if !IsZero(criteria.before) && !Before(email.createTime, TruncateToDate(criteria.before)) {
      return false;
    }
    if !IsZero(criteria.sentSince) && Before(email.sendDate, TruncateToDate(criteria.sentSince)) {
      return false;
    }
    if !IsZero(criteria.sentBefore) && !Before(email.sendDate, TruncateToDate(criteria.sentBefore)) {
      return false;
    }
    if criteria.larger > 0 && email.size <= criteria.larger {
      return false;
    }
    if criteria.smaller > 0 && email.size >= criteria.smaller {
      return false;
    }
    for i := 0 to |criteria.header|
      invariant forall j :: 0 <= j < i ==>
                  MatchesHeader(lower, email, criteria.header[j].key, criteria.header[j].value)
    {
      if !MatchesHeader(lower, email, criteria.header[i].key, criteria.header[i].value) {
        return false;
      }
    }
    for i := 0 to |criteria.body|
      invariant forall j :: 0 <= j < i ==> MatchesBody(lower, email, criteria.body[j])
    {
      if !MatchesBody(lower, email, criteria.body[i]) {
        return false;
      }
    }
    for i := 0 to |criteria.text|
      invariant forall j :: 0 <= j < i ==> MatchesText(lower, email, criteria.text[j])
    {
      if !MatchesText(lower, email, criteria.text[i]) {
        return false;
      }
    }
    ok := true;
  }

  function UidTest(sets: seq<set<int>>): Item -> bool {
    (x: Item) => InSome(sets, Uint32(x.uid))
  }

  function SeqTest(sets: seq<set<int>>): Item -> bool {
    (x: Item) => InSome(sets, Uint32(x.serial))
  }

  function FlagTest(flags: seq<Flag>, notFlags: seq<Flag>): Item -> bool {
    (x: Item) => FlagsMatch(x, flags, notFlags)
  }

  function EmailTest(m: Mailbox, c: Criteria): Item -> bool {
    (x: Item) => x.emailId in m.emails && EmailMatches(m.lower, m.emails[x.emailId], c)
  }

  method FilterByUIDSets(list: seq<Item>, uidSets: seq<set<int>>) returns (result: seq<Item>)
    ensures result == Filter(list, UidTest(uidSets))
  {
    hide Filter;
    result := [];
    for k := 0 to |list|
      invariant result + Filter(list[k..], UidTest(uidSets)) == Filter(list, UidTest(uidSets))
    {
      ghost var before := result;
      for i := 0 to |uidSets|
        invariant result == before
        invariant forall j :: 0 <= j < i ==> Uint32(list[k].uid) !in uidSets[j]
      {
        if Uint32(list[k].uid) in uidSets[i] {
          result := result + [list[k]];
          break;
        }
      }
      Advance(list, UidTest(uidSets), k, before, result);
    }
    Unfold(list, UidTest(uidSets), |list|);
  }

  method FilterBySeqNumSets(list: seq<Item>, seqSets: seq<set<int>>) returns (result: seq<Item>)
    ensures result == Filter(list, SeqTest(seqSets))
  {
    hide Filter;
    result := [];
    for k := 0 to |list|
      invariant result + Filter(list[k..], SeqTest(seqSets)) == Filter(list, SeqTest(seqSets))
    {
      ghost var before := result;
      for i := 0 to |seqSets|
        invariant result == before
        invariant forall j :: 0 <= j < i ==> Uint32(list[k].serial) !in seqSets[j]
      {
        if Uint32(list[k].serial) in seqSets[i] {
          result := result + [list[k]];
          break;
        }
      }
      Advance(list, SeqTest(seqSets), k, before, result);
    }
    Unfold(list, SeqTest(seqSets), |list|);
  }

  method FilterByFlags(list: seq<Item>, flags: seq<Flag>, notFlags: seq<Flag>) returns (result: seq<Item>)
    ensures result == Filter(list, FlagTest(flags, notFlags))
  {
    hide Filter;
    result := [];
    for k := 0 to |list|
      invariant result + Filter(list[k..], FlagTest(flags, notFlags)) == Filter(list, FlagTest(flags, notFlags))
    {
      ghost var before := result;
      var matches := true;
      for i := 0 to |flags|
        invariant matches && forall j :: 0 <= j < i ==> HasFlag(list[k], flags[j])
      {
        if !HasFlag(list[k], flags[i]) {
          matches := false;
          break;
        }
      }
      if matches {
        for i := 0 to |notFlags|
          invariant matches && forall j :: 0 <= j < i ==> !HasFlag(list[k], notFlags[j])
        {
          if HasFlag(list[k], notFlags[i]) {
            matches := false;
            break;
          }
        }
      }
      if matches {
        result := result + [list[k]];
      }
      Advance(list, FlagTest(flags, notFlags), k, before, result);
    }
    Unfold(list, FlagTest(flags, notFlags), |list|);
  }

  method FilterWithEmailData(m: Mailbox, list: seq<Item>, criteria: Criteria) returns (result: seq<Item>)
    ensures result == Filter(list, EmailTest(m, criteria))
  {
    hide Filter, EmailMatches;
    Unfold(list, EmailTest(m, criteria), |list|);
    if |list| == 0 {
      assert list == list[|list|..];
      return list;
    }
    var emailIds := {};
    for k := 0 to |list|
      invariant forall j :: 0 <= j < k ==> list[j].emailId in emailIds
    {
      emailIds := emailIds + {list[k].emailId};
    }
    var emailMap := map e | e in emailIds && e in m.emails :: m.emails[e];
    result := [];
    for k := 0 to |list|
      invariant result + Filter(list[k..], EmailTest(m, criteria)) == Filter(list, EmailTest(m, criteria))
    {
      ghost var before := result;
      if list[k].emailId in emailMap {
        var ok := MatchesEmailCriteria(m.lower, emailMap[list[k].emailId], criteria);
        if ok {
          result := result + [list[k]];
        }
      }
      Advance(list, EmailTest(m, criteria), k, before, result);
    }
  }

  /** Under unique UIDs, a message is known by its UID. */
  lemma ByUid(list: seq<Item>, p: Item -> bool, x: Item)
    requires Unique(list) && x in list
    ensures (exists y :: y in Filter(list, p) && y.uid == x.uid) <==> p(x)
  {
    hide Filter;
    if p(x) {
      assert x in Filter(list, p);
    }
    if y :| y in Filter(list, p) && y.uid == x.uid {
      var i :| 0 <= i < |list| && list[i] == x;
      var j :| 0 <= j < |list| && list[j] == y;
      assert i == j;
    }
  }

  function SatTest(m: Mailbox, c: Criteria): Item -> bool {
    (x: Item) => Sat(m, c, x)
  }

  function NotTest(m: Mailbox, c: Criteria): Item -> bool {
    (x: Item) => !Sat(m, c, x)
  }

  function OrTest(m: Mailbox, pairs: seq<OrPair>): Item -> bool {
    (x: Item) => SomePair(m, pairs, x)
  }

  predicate Within(list: seq<Item>, base: seq<Item>) {
    forall x :: x in list ==> x in base
  }

  /** Items of `list` by a set of UIDs. */
  method KeepUids(list: seq<Item>, uids: set<int>, wanted: bool, ghost p: Item -> bool) returns (result: seq<Item>)
    requires forall x :: x in list ==> (p(x) <==> (x.uid in uids) == wanted)
    ensures result == Filter(list, p)
  {
    hide Filter;
    result := [];
    for k := 0 to |list|
      invariant result + Filter(list[k..], p) == Filter(list, p)
    {
      ghost var before := result;
      assert list[k] in list;
      if (list[k].uid in uids) == wanted {
        result := result + [list[k]];
      }
      Advance(list, p, k, before, result);
    }
    Unfold(list, p, |list|);
  }

  /** applyNotCriteria. */
  method ApplyNotCriteria(m: Mailbox, list: seq<Item>, notCriteria: Criteria) returns (result: seq<Item>)
    requires Unique(m.list) && Within(list, m.list)
    ensures result == Filter(list, NotTest(m, notCriteria))
    decreases notCriteria, 1
  {
    hide Filter, Sat;
    var matchedList := SearchEmails(m, notCriteria);
    var matchedUIDs := {};
    for k := 0 to |matchedList|
      invariant forall u :: u in matchedUIDs <==> exists j :: 0 <= j < k && matchedList[j].uid == u
    {
      matchedUIDs := matchedUIDs + {matchedList[k].uid};
    }
    forall x | x in list
      ensures NotTest(m, notCriteria)(x) <==> (x.uid in matchedUIDs) == false
    {
      ByUid(m.list, SatTest(m, notCriteria), x);
      if y :| y in matchedList && y.uid == x.uid {
        var j :| 0 <= j < |matchedList| && matchedList[j] == y;
        assert x.uid in matchedUIDs;
      }
    }
    result := KeepUids(list, matchedUIDs, false, NotTest(m, notCriteria));
  }

  /** The UIDs of `matches` that are current, added to the set. */
  method Collect(matches: seq<Item>, currentUIDs: set<int>, uids: set<int>) returns (resultUIDs: set<int>)
    ensures forall u :: u in resultUIDs
                        <==> u in uids || (u in currentUIDs && exists y :: y in matches && y.uid == u)
  {
    resultUIDs := uids;
    for k := 0 to |matches|
      invariant forall u :: u in resultUIDs
                            <==> u in uids || (u in currentUIDs && exists j :: 0 <= j < k && matches[j].uid == u)
    {
      if matches[k].uid in currentUIDs {
        resultUIDs := resultUIDs + {matches[k].uid};
      }
    }
  }

  /** One turn of the loop over the pairs: both searches, joined. */
  method MatchesOfPair(m: Mailbox, pair: OrPair, currentUIDs: set<int>, uids: set<int>)
    returns (resultUIDs: set<int>)
    requires Unique(m.list)
    ensures forall u :: u in resultUIDs
                        <==> u in uids
                             || (u in currentUIDs
                                 && ((exists y :: y in Filter(m.list, SatTest(m, pair.first)) && y.uid == u)
                                     || (exists y :: y in Filter(m.list, SatTest(m, pair.second)) && y.uid == u)))
    decreases pair, 0
  {
    hide Filter, Sat;
    var matches1 := SearchEmails(m, pair.first);
    resultUIDs := Collect(matches1, currentUIDs, uids);
    var matches2 := SearchEmails(m, pair.second);
    resultUIDs := Collect(matches2, currentUIDs, resultUIDs);
  }

  /** applyOrCriteria. */
  method ApplyOrCriteria(m: Mailbox, list: seq<Item>, orCriteria: seq<OrPair>) returns (result: seq<Item>)
    requires Unique(m.list) && Within(list, m.list)
    ensures result == if orCriteria == [] then list else Filter(list, OrTest(m, orCriteria))
    decreases orCriteria, 0
  {
    hide Filter, Sat;
    if |orCriteria| == 0 {
      return list;
    }
    var currentUIDs := set x | x in list :: x.uid;
    var resultUIDs := {};
    for k := 0 to |orCriteria|
      invariant forall x :: x in list ==> (x.uid in resultUIDs <==> SomePair(m, orCriteria[..k], x))
    {
      ghost var before := resultUIDs;
      resultUIDs := MatchesOfPair(m, orCriteria[k], currentUIDs, resultUIDs);
      forall x | x in list
        ensures x.uid in resultUIDs <==> SomePair(m, orCriteria[..k + 1], x)
      {
        ByUid(m.list, SatTest(m, orCriteria[k].first), x);
        ByUid(m.list, SatTest(m, orCriteria[k].second), x);
        OneMorePair(m, orCriteria, k, x);
      }
    }
    assert orCriteria[..|orCriteria|] == orCriteria;
    result := KeepUids(list, resultUIDs, true, OrTest(m, orCriteria));
  }

  lemma OneMorePair(m: Mailbox, pairs: seq<OrPair>, k: nat, x: Item)
    requires k < |pairs|
    ensures SomePair(m, pairs[..k + 1], x)
            <==> SomePair(m, pairs[..k], x) || Sat(m, pairs[k].first, x) || Sat(m, pairs[k].second, x)
  {
    hide Sat;
    var more, less := pairs[..k + 1], pairs[..k];
    if SomePair(m, less, x) {
      var i :| 0 <= i < k && EitherOf(m, less[i], x);
      assert more[i] == less[i];
    }
    if SomePair(m, more, x) {
      var i :| 0 <= i < k + 1 && EitherOf(m, more[i], x);
      assert i < k ==> less[i] == more[i];
      assert i == k ==> more[i] == pairs[k];
    }
    assert more[k] == pairs[k];
    assert EitherOf(m, more[k], x) ==> SomePair(m, more, x);
  }

  /** What the first `k` stages of the evaluator have tested; from the fifth on, each NOT is a stage. */
  predicate Passed(m: Mailbox, c: Criteria, x: Item, k: nat) {
    (k >= 1 && c.uid != [] ==> InSome(c.uid, Uint32(x.uid)))
    && (k >= 2 && c.seqNum != [] ==> InSome(c.seqNum, Uint32(x.serial)))
    && (k >= 3 ==> DataMatches(m, c, x))
    && (k >= 4 ==> FlagsMatch(x, c.flag, c.notFlag))
    && (forall i :: 0 <= i < |c.not| && i + 4 < k ==> !Sat(m, c.not[i], x))
  }

  function PassedTest(m: Mailbox, c: Criteria, k: nat): Item -> bool {
    (x: Item) => Passed(m, c, x, k)
  }

  lemma {:induction false} Same(base: seq<Item>, p: Item -> bool, q: Item -> bool)
    requires forall x :: x in base ==> (p(x) <==> q(x))
    ensures Filter(base, p) == Filter(base, q)
  {
    if base != [] {
      assert base[0] in base;
      Same(base[1..], p, q);
    }
  }

  lemma PassedAll(m: Mailbox, c: Criteria, x: Item)
    ensures Sat(m, c, x)
            <==> Passed(m, c, x, |c.not| + 4) && (c.or != [] ==> SomePair(m, c.or, x))
  {
    assert Passed(m, c, x, |c.not| + 4) ==> NoneOf(m, c.not, x);
  }

  lemma EmptySat(m: Mailbox, c: Criteria, x: Item)
    requires IsEmptyCriteria(c)
    ensures Sat(m, c, x)
  {
  }

  lemma UidStage(m: Mailbox, c: Criteria)
    ensures Filter(m.list, PassedTest(m, c, 0)) == m.list
    ensures c.uid != [] ==> Filter(m.list, UidTest(c.uid)) == Filter(m.list, PassedTest(m, c, 1))
    ensures c.uid == [] ==> m.list == Filter(m.list, PassedTest(m, c, 1))
  {
    hide Filter, Sat, InSome, DataMatches, FlagsMatch;
    All(m.list, PassedTest(m, c, 0));
    if c.uid != [] {
      Same(m.list, UidTest(c.uid), PassedTest(m, c, 1));
    } else {
      Same(m.list, PassedTest(m, c, 0), PassedTest(m, c, 1));
    }
  }

  lemma SeqStage(m: Mailbox, c: Criteria)
    ensures var before, after := Filter(m.list, PassedTest(m, c, 1)), Filter(m.list, PassedTest(m, c, 2));
            after == if c.seqNum != [] then Filter(before, SeqTest(c.seqNum)) else before
  {
    hide Filter, Sat, InSome, DataMatches, FlagsMatch;
    if c.seqNum != [] {
      Chain(m.list, PassedTest(m, c, 1), SeqTest(c.seqNum), PassedTest(m, c, 2));
    } else {
      Same(m.list, PassedTest(m, c, 1), PassedTest(m, c, 2));
    }
  }

  lemma DataStage(m: Mailbox, c: Criteria)
    ensures var before, after := Filter(m.list, PassedTest(m, c, 2)), Filter(m.list, PassedTest(m, c, 3));
            after == if NeedsEmailData(c) then Filter(before, EmailTest(m, c)) else before
  {
    hide Filter, Sat, InSome, EmailMatches, FlagsMatch, NeedsEmailData;
    if NeedsEmailData(c) {
      Chain(m.list, PassedTest(m, c, 2), EmailTest(m, c), PassedTest(m, c, 3));
    } else {
      Same(m.list, PassedTest(m, c, 2), PassedTest(m, c, 3));
    }
  }

  lemma FlagStage(m: Mailbox, c: Criteria)
    ensures var before, after := Filter(m.list, PassedTest(m, c, 3)), Filter(m.list, PassedTest(m, c, 4));
            after == if c.flag != [] || c.notFlag != [] then Filter(before, FlagTest(c.flag, c.notFlag)) else before
  {
    hide Filter, Sat, InSome, DataMatches, HasFlag;
    if c.flag != [] || c.notFlag != [] {
      Chain(m.list, PassedTest(m, c, 3), FlagTest(c.flag, c.notFlag), PassedTest(m, c, 4));
    } else {
      Same(m.list, PassedTest(m, c, 3), PassedTest(m, c, 4));
    }
  }

  lemma NotStage(m: Mailbox, c: Criteria, i: nat)
    requires i < |c.not|
    ensures Filter(Filter(m.list, PassedTest(m, c, i + 4)), NotTest(m, c.not[i]))
            == Filter(m.list, PassedTest(m, c, i + 5))
  {
    hide Filter, Sat, InSome, DataMatches, FlagsMatch;
    Chain(m.list, PassedTest(m, c, i + 4), NotTest(m, c.not[i]), PassedTest(m, c, i + 5));
  }

  lemma OrStage(m: Mailbox, c: Criteria)
    ensures var before := Filter(m.list, PassedTest(m, c, |c.not| + 4));
            Filter(m.list, SatTest(m, c)) == if c.or != [] then Filter(before, OrTest(m, c.or)) else before
  {
    hide Filter, Sat, Passed, SomePair;
    var passed := PassedTest(m, c, |c.not| + 4);
    forall x | x in m.list
      ensures SatTest(m, c)(x) <==> passed(x) && (c.or != [] ==> SomePair(m, c.or, x))
    {
      PassedAll(m, c, x);
    }
    if c.or != [] {
      Chain(m.list, passed, OrTest(m, c.or), SatTest(m, c));
    } else {
      Same(m.list, passed, SatTest(m, c));
    }
  }

  lemma NothingToSearch(m: Mailbox, c: Criteria)
    requires m.list == [] || IsEmptyCriteria(c)
    ensures Filter(m.list, SatTest(m, c)) == m.list
  {
    hide Filter, Sat;
    forall x | x in m.list
      ensures SatTest(m, c)(x)
    {
      EmptySat(m, c, x);
    }
    All(m.list, SatTest(m, c));
  }

  /** Every answered message whose email is there has an email that meets all that is asked of it. */
  lemma AnsweredMatch(m: Mailbox, c: Criteria)
    ensures forall x :: x in Filter(m.list, SatTest(m, c)) && x.emailId in m.emails ==>
                          EmailMatches(m.lower, m.emails[x.emailId], c)
  {
    hide Filter, MatchesHeader, MatchesBody, MatchesText, NoneOf, SomePair;
    forall x | Sat(m, c, x) && x.emailId in m.emails
      ensures EmailMatches(m.lower, m.emails[x.emailId], c)
    {
    }
  }

  /** A message whose email is gone passes exactly when the criteria ask nothing of the email. */
  lemma MissingEmailIff(m: Mailbox, c: Criteria, x: Item)
    requires x.emailId !in m.emails
    ensures DataMatches(m, c, x)
            <==> c.since.instant == 0 && c.before.instant == 0 && c.sentSince.instant == 0
                 && c.sentBefore.instant == 0 && c.header == [] && c.body == [] && c.text == []
                 && c.larger <= 0 && c.smaller <= 0
  {
  }

  /** SearchEmails: exactly the messages of the listing that satisfy the criteria, in the order of the listing. */
  method SearchEmails(m: Mailbox, criteria: Criteria) returns (list: seq<Item>)
    requires Unique(m.list)
    ensures list == Filter(m.list, SatTest(m, criteria))
    ensures forall x :: x in list && x.emailId in m.emails ==>
                          EmailMatches(m.lower, m.emails[x.emailId], criteria)
    decreases criteria, 0
  {
    AnsweredMatch(m, criteria);
    hide Filter, Sat, Passed, EmailMatches, PassedTest, SatTest, UidTest, SeqTest, EmailTest, FlagTest, NotTest;
    hide OrTest, Unique, IsEmptyCriteria, NeedsEmailData;
    list := m.list;
    if |list| == 0 || IsEmptyCriteria(criteria) {
      NothingToSearch(m, criteria);
      return;
    }
    UidStage(m, criteria);
    if |criteria.uid| > 0 {
      list := FilterByUIDSets(list, criteria.uid);
    }
    SeqStage(m, criteria);
    if |criteria.seqNum| > 0 {
      list := FilterBySeqNumSets(list, criteria.seqNum);
    }
    DataStage(m, criteria);
    if NeedsEmailData(criteria) {
      list := FilterWithEmailData(m, list, criteria);
    }
    FlagStage(m, criteria);
    if |criteria.flag| > 0 || |criteria.notFlag| > 0 {
      list := FilterByFlags(list, criteria.flag, criteria.notFlag);
    }
    for i := 0 to |criteria.not|
      invariant list == Filter(m.list, PassedTest(m, criteria, i + 4))
    {
      list := ApplyNotCriteria(m, list, criteria.not[i]);
      NotStage(m, criteria, i);
    }
    OrStage(m, criteria);
    if |criteria.or| > 0 {
      list := ApplyOrCriteria(m, list, criteria.or);
    }
  }

  // ---- Properties of the pointwise semantics

  predicate IncreasingUids(list: seq<Item>) {
    forall i, j :: 0 <= i < j < |list| ==> list[i].uid < list[j].uid
  }

  /** Filtering keeps the order; with its membership this fixes the answer of a search. */
  lemma {:induction false} AnswerInOrder(list: seq<Item>, p: Item -> bool)
    requires IncreasingUids(list)
    ensures IncreasingUids(Filter(list, p))
  {
    if list != [] {
      var rest := Filter(list[1..], p);
      AnswerInOrder(list[1..], p);
      forall j | 0 <= j < |rest|
        ensures list[0].uid < rest[j].uid
      {
        assert rest[j] in list[1..];
      }
    }
  }

  /** A listing can be searched: its UIDs are unique. */
  lemma ListingIsSearchable(db: Db, user: int, status: int)
    ensures Unique(Listed(db, user, status)) && IncreasingUids(Listed(db, user, status))
  {
    hide Listed, BoxRows;
    NumbersAreDense(db, user, status);
  }

  function StatusOfFlag(flag: Flag): Option<int> {
    match flag
    case Deleted => Some(DELETED)
    case Draft => Some(DRAFTS)
    case Junk => Some(JUNK)
    case _ => None
  }

  /**
   The listing does not read the status: a search by flag sees what the links say exactly when the mailbox is
   empty or is not the one the flag stands for.
   */
  lemma StatusFlagIff(db: Db, user: int, status: int, flag: Flag)
    ensures (forall k :: 0 <= k < |Listed(db, user, status)| ==>
               var item := Listed(db, user, status)[k];
               item.uid in db.links
               && (HasFlag(item, flag) <==> HasFlag(item.(status := db.links[item.uid].status), flag)))
            <==> Listed(db, user, status) == [] || StatusOfFlag(flag) != Some(status)
  {
    var items := Listed(db, user, status);
    forall k | 0 <= k < |items|
      ensures items[k].status == 0 && items[k].uid in BoxRows(db, user, status)
    {
      var ids := Ids.Ascending(BoxRows(db, user, status));
      assert ids[k] in ids;
    }
    if items != [] && StatusOfFlag(flag) == Some(status) {
      assert !HasFlag(items[0], flag);
    }
  }

  // ---- The meaning of section 6.4.4 of RFC 3501: every key of a node, and every pair of OR, must hold

  predicate NoneMeant(m: Mailbox, cs: seq<Criteria>, item: Item) {
    forall i :: 0 <= i < |cs| ==> !Means(m, cs[i], item)
  }

  predicate EitherMeant(m: Mailbox, pair: OrPair, item: Item) {
    Means(m, pair.first, item) || Means(m, pair.second, item)
  }

  predicate EveryPair(m: Mailbox, pairs: seq<OrPair>, item: Item) {
    forall i :: 0 <= i < |pairs| ==> EitherMeant(m, pairs[i], item)
  }

  predicate Means(m: Mailbox, c: Criteria, item: Item) {
    InEvery(c.uid, Uint32(item.uid)) && InEvery(c.seqNum, Uint32(item.serial)) && DataMatches(m, c, item)
    && FlagsMatch(item, c.flag, c.notFlag) && NoneMeant(m, c.not, item) && EveryPair(m, c.or, item)
  }

  predicate BothAtMostOne(pair: OrPair) {
    AtMostOne(pair.first) && AtMostOne(pair.second)
  }

  predicate BranchesAtMostOne(c: Criteria)
    decreases c, 0
  {
    (forall i :: 0 <= i < |c.not| ==> AtMostOne(c.not[i])) && (forall i :: 0 <= i < |c.or| ==> BothAtMostOne(c.or[i]))
  }

  /** At every node at most one UID set, one sequence set and one pair of OR. */
  predicate AtMostOne(c: Criteria)
    decreases c, 1
  {
    |c.uid| <= 1 && |c.seqNum| <= 1 && |c.or| <= 1 && BranchesAtMostOne(c)
  }

  /** The branches of a node mean what the evaluator makes of them. */
  lemma {:induction false} BranchesAgree(m: Mailbox, c: Criteria, item: Item)
    requires BranchesAtMostOne(c)
    ensures NoneOf(m, c.not, item) <==> NoneMeant(m, c.not, item)
    ensures forall i :: 0 <= i < |c.or| ==> (EitherOf(m, c.or[i], item) <==> EitherMeant(m, c.or[i], item))
    decreases c, 0
  {
    hide Sat, Means;
    forall i | 0 <= i < |c.not|
      ensures Sat(m, c.not[i], item) <==> Means(m, c.not[i], item)
    {
      SearchIsAnd(m, c.not[i], item);
    }
    forall i | 0 <= i < |c.or|
      ensures EitherOf(m, c.or[i], item) <==> EitherMeant(m, c.or[i], item)
    {
      PairAgrees(m, c.or[i], item);
    }
  }

  lemma {:induction false} PairAgrees(m: Mailbox, pair: OrPair, item: Item)
    requires BothAtMostOne(pair)
    ensures EitherOf(m, pair, item) <==> EitherMeant(m, pair, item)
    decreases pair, 0
  {
    hide Sat, Means;
    SearchIsAnd(m, pair.first, item);
    SearchIsAnd(m, pair.second, item);
  }

  /** For criteria of any nesting, one set of a kind and one OR at each node make the evaluator's "or" an "and". */
  lemma {:induction false} SearchIsAnd(m: Mailbox, c: Criteria, item: Item)
    requires AtMostOne(c)
    ensures Sat(m, c, item) <==> Means(m, c, item)
    decreases c, 1
  {
    BranchesAgree(m, c, item);
    hide EitherOf, EitherMeant, NoneOf, NoneMeant, DataMatches, FlagsMatch;
    if |c.or| == 1 {
      assert SomePair(m, c.or, item) <==> EitherOf(m, c.or[0], item);
      assert EveryPair(m, c.or, item) <==> EitherMeant(m, c.or[0], item);
    }
    if |c.uid| == 1 {
      assert InSome(c.uid, Uint32(item.uid)) <==> Uint32(item.uid) in c.uid[0];
    }
    if |c.seqNum| == 1 {
      assert InSome(c.seqNum, Uint32(item.serial)) <==> Uint32(item.serial) in c.seqNum[0];
    }
  }

  function MeansTest(m: Mailbox, c: Criteria): Item -> bool {
    (x: Item) => Means(m, c, x)
  }

  /** The messages the standard asks for. */
  function Meant(m: Mailbox, c: Criteria): seq<Item> { Filter(m.list, MeansTest(m, c)) }

  /** What SearchEmails answers. */
  function Answer(m: Mailbox, c: Criteria): seq<Item> { Filter(m.list, SatTest(m, c)) }

  lemma AnswerIsMeant(m: Mailbox, c: Criteria)
    requires AtMostOne(c)
    ensures Answer(m, c) == Meant(m, c)
  {
    hide Sat, Means, Filter;
    forall x | x in m.list
      ensures SatTest(m, c)(x) <==> MeansTest(m, c)(x)
    {
      SearchIsAnd(m, c, x);
    }
    Same(m.list, SatTest(m, c), MeansTest(m, c));
  }

  /** In any mailbox, criteria of this shape are answered as the standard asks. */
  ghost predicate AnsweredRight(uids: nat, seqNums: nat, ors: nat) {
    forall m: Mailbox, c: Criteria ::
      Unique(m.list) && |c.uid| == uids && |c.seqNum| == seqNums && |c.or| == ors && BranchesAtMostOne(c)
      ==> Answer(m, c) == Meant(m, c)
  }

  const NO_TIME := Time(0, 0)

  function Node(uid: seq<set<int>>, seqNum: seq<set<int>>, not: seq<Criteria>, or: seq<OrPair>): Criteria {
    Criteria(uid, seqNum, NO_TIME, NO_TIME, NO_TIME, NO_TIME, [], [], [], [], [], 0, 0, not, or)
  }

  const ANYTHING := Node([], [], [], [])
  const NOTHING := Node([], [], [ANYTHING], [])

  /** One set with the number 1 and any others without it; one OR that always holds and any others that never do. */
  function Mixed(uids: nat, seqNums: nat, ors: nat): Criteria {
    Node(seq(uids, i => if i == 0 then {1} else {}), seq(seqNums, i => if i == 0 then {1} else {}), [],
         seq(ors, i => if i == 0 then OrPair(ANYTHING, ANYTHING) else OrPair(NOTHING, NOTHING)))
  }

  lemma AnythingHolds(m: Mailbox, item: Item)
    ensures Sat(m, ANYTHING, item) && Means(m, ANYTHING, item) && AtMostOne(ANYTHING)
  {
    EmptySat(m, ANYTHING, item);
  }

  lemma AnythingNothing(m: Mailbox, item: Item)
    ensures Sat(m, ANYTHING, item) && Means(m, ANYTHING, item)
    ensures !Sat(m, NOTHING, item) && !Means(m, NOTHING, item)
    ensures AtMostOne(ANYTHING) && AtMostOne(NOTHING)
  {
    AnythingHolds(m, item);
    assert NOTHING.not[0] == ANYTHING;
    assert !NoneOf(m, NOTHING.not, item) && !NoneMeant(m, NOTHING.not, item);
    assert BranchesAtMostOne(NOTHING);
  }

  lemma MixedDiffers(m: Mailbox, uids: nat, seqNums: nat, ors: nat)
    requires uids > 1 || seqNums > 1 || ors > 1
    ensures var c, item := Mixed(uids, seqNums, ors), Item(1, 1, 0, 1, 0);
            BranchesAtMostOne(c) && Sat(m, c, item) && !Means(m, c, item)
  {
    hide Sat, Means, AtMostOne;
    var c, item := Mixed(uids, seqNums, ors), Item(1, 1, 0, 1, 0);
    AnythingNothing(m, item);
    if uids > 0 {
      assert Uint32(item.uid) in c.uid[0];
    }
    if seqNums > 0 {
      assert Uint32(item.serial) in c.seqNum[0];
    }
    if ors > 0 {
      assert EitherOf(m, c.or[0], item);
    }
    MixedSides(m, c, item);
    if uids > 1 {
      assert Uint32(item.uid) !in c.uid[1];
    } else if seqNums > 1 {
      assert Uint32(item.serial) !in c.seqNum[1];
    } else {
      assert !EitherMeant(m, c.or[1], item);
    }
  }

  lemma MixedSides(m: Mailbox, c: Criteria, item: Item)
    requires c == Node(c.uid, c.seqNum, [], c.or)
    ensures Sat(m, c, item)
            <==> (c.uid != [] ==> InSome(c.uid, Uint32(item.uid)))
                 && (c.seqNum != [] ==> InSome(c.seqNum, Uint32(item.serial)))
                 && (c.or != [] ==> SomePair(m, c.or, item))
    ensures Means(m, c, item)
            <==> InEvery(c.uid, Uint32(item.uid)) && InEvery(c.seqNum, Uint32(item.serial))
                 && EveryPair(m, c.or, item)
  {
    hide SomePair, EveryPair, InSome, InEvery;
  }

  /** A mailbox of one message, and criteria that are answered with it although one of their keys excludes it. */
  lemma WrongAnswer(uids: nat, seqNums: nat, ors: nat)
    requires uids > 1 || seqNums > 1 || ors > 1
    ensures var item := Item(1, 1, 0, 1, 0);
            var m, c := Mailbox([item], map[], (b: bytes) => b), Mixed(uids, seqNums, ors);
            Unique(m.list) && BranchesAtMostOne(c) && Answer(m, c) == [item] && Meant(m, c) == []
  {
    hide Sat, Means, Filter, Mixed, BranchesAtMostOne;
    var item := Item(1, 1, 0, 1, 0);
    var m, c := Mailbox([item], map[], (b: bytes) => b), Mixed(uids, seqNums, ors);
    MixedDiffers(m, uids, seqNums, ors);
    All(m.list, SatTest(m, c));
    if Meant(m, c) != [] {
      assert Meant(m, c)[0] in Meant(m, c);
    }
  }

  /** And only then: with two sets of a kind, or two ORs, some criteria of that shape are answered too widely. */
  lemma ShapeIff(uids: nat, seqNums: nat, ors: nat)
    ensures AnsweredRight(uids, seqNums, ors) <==> uids <= 1 && seqNums <= 1 && ors <= 1
  {
    hide Sat, Means, Answer, Meant;
    if uids <= 1 && seqNums <= 1 && ors <= 1 {
      forall m: Mailbox, c: Criteria |
        Unique(m.list) && |c.uid| == uids && |c.seqNum| == seqNums && |c.or| == ors && BranchesAtMostOne(c)
        ensures Answer(m, c) == Meant(m, c)
      {
        AnswerIsMeant(m, c);
      }
    } else {
      WrongAnswer(uids, seqNums, ors);
      var c := Mixed(uids, seqNums, ors);
      assert |c.uid| == uids && |c.seqNum| == seqNums && |c.or| == ors;
    }
  }

  /** OR is the NOT of both NOTs. */
  lemma OrIsNotBothNot(m: Mailbox, a: Criteria, b: Criteria, item: Item)
    ensures Sat(m, Node([], [], [], [OrPair(a, b)]), item)
            <==> Sat(m, Node([], [], [Node([], [], [a, b], [])], []), item)
  {
    hide Sat;
    var either, neither := Node([], [], [], [OrPair(a, b)]), Node([], [], [a, b], []);
    var double := Node([], [], [neither], []);
    OnlyNots(m, neither, item);
    OnlyNots(m, double, item);
    MixedSides(m, either, item);
    assert neither.not[0] == a && neither.not[1] == b && double.not[0] == neither;
    assert EitherOf(m, either.or[0], item) <==> Sat(m, a, item) || Sat(m, b, item);
  }

  lemma OnlyNots(m: Mailbox, c: Criteria, item: Item)
    requires c == Node([], [], c.not, [])
    ensures Sat(m, c, item) <==> NoneOf(m, c.not, item)
  {
    assert c.uid == [] && c.seqNum == [] && c.or == [];
    assert NoneOf(m, c.not, item) ==> Sat(m, c, item);
  }

  // ---- What the keys find, one by one

  /** Dates are compared by midnight in the zone of the date that is asked for: `day` is its number there. */
  lemma DatesAreDays(t: Time, date: Time, day: int)
    requires var length := 24 * 60 * 60 * 1_000_000_000;
             day * length <= date.instant + date.offset < (day + 1) * length
    ensures var midnight := day * (24 * 60 * 60 * 1_000_000_000) - date.offset;
            (OnOrAfter(t, date) <==> date.instant == 0 || t.instant >= midnight)
            && (EarlierThan(t, date) <==> date.instant == 0 || t.instant < midnight)
  {
    DayIs(date.instant + date.offset, day);
    MidnightIff(t.instant + date.offset, day);
  }

  lemma DayIs(x: int, day: int)
    requires day * 86_400_000_000_000 <= x < (day + 1) * 86_400_000_000_000
    ensures x / DAY == day
  {
  }

  lemma MidnightIff(x: int, day: int)
    ensures x / DAY >= day <==> x >= day * 86_400_000_000_000
  {
  }

  /** The fields HEADER looks into, by name. */
  function NamedFields(e: Email): seq<(string, bytes)> {
    [("subject", e.subject), ("from", e.fromAddress), ("from", e.fromName), ("to", e.to), ("cc", e.cc),
     ("bcc", e.bcc), ("reply-to", e.replyTo), ("sender", e.sender)]
  }

  lemma NamesApart()
    ensures Ascii("subject")[..2] == [115, 117] && |Ascii("from")| == 4 && |Ascii("to")| == 2
    ensures Ascii("cc") == [99, 99] && Ascii("to") == [116, 111] && |Ascii("bcc")| == 3
    ensures |Ascii("reply-to")| == 8 && Ascii("sender")[..2] == [115, 101] && |Ascii("sender")| == 6
    ensures |Ascii("subject")| == 7
  {
  }

  /** HEADER finds a message exactly when a field of that name, in lower case, includes the text in lower case. */
  lemma HeaderFinds(lower: bytes -> bytes, e: Email, key: bytes, value: bytes)
    ensures MatchesHeader(lower, e, key, value)
            <==> exists i :: 0 <= i < |NamedFields(e)| && Ascii(NamedFields(e)[i].0) == lower(key)
                             && exists a, b :: lower(NamedFields(e)[i].1) == a + lower(value) + b
  {
    hide Includes, Ascii;
    NamesApart();
    var fields := NamedFields(e);
    forall i | 0 <= i < |fields|
      ensures Includes(lower(fields[i].1), lower(value)) <==> exists a, b :: lower(fields[i].1) == a + lower(value) + b
    {
      IncludesIff(lower(fields[i].1), lower(value));
    }
    assert fields[0].0 == "subject" && fields[1].0 == "from" && fields[2].0 == "from" && fields[3].0 == "to";
    assert fields[4].0 == "cc" && fields[5].0 == "bcc" && fields[6].0 == "reply-to" && fields[7].0 == "sender";
  }

  /** BODY finds a message exactly when its plain text or its HTML, in lower case, includes the text in lower case. */
  lemma BodyFinds(lower: bytes -> bytes, e: Email, pattern: bytes)
    ensures MatchesBody(lower, e, pattern)
            <==> exists a, b, text :: lower(text) == a + lower(pattern) + b
                                      && (e.plain == Some(text) || e.html == Some(text))
  {
    hide Includes;
    if e.plain.Some? {
      IncludesIff(lower(e.plain.value), lower(pattern));
    }
    if e.html.Some? {
      IncludesIff(lower(e.html.value), lower(pattern));
    }
  }

  /** TEXT finds what BODY finds, and what HEADER finds in five of the fields. */
  lemma TextFinds(lower: bytes -> bytes, e: Email, pattern: bytes)
    requires lower(lower(pattern)) == lower(pattern)
    requires forall name :: name in {"subject", "from", "to", "cc", "bcc"} ==> lower(Ascii(name)) == Ascii(name)
    ensures MatchesText(lower, e, pattern)
            <==> MatchesBody(lower, e, pattern)
                 || exists name :: name in {"subject", "from", "to", "cc", "bcc"}
                                   && MatchesHeader(lower, e, Ascii(name), pattern)
  {
    hide Includes, Ascii;
    NamesApart();
    assert "subject" in {"subject", "from", "to", "cc", "bcc"};
    assert MatchesHeader(lower, e, Ascii("subject"), pattern) <==> Includes(lower(e.subject), lower(pattern));
    assert MatchesHeader(lower, e, Ascii("from"), pattern)
           <==> Includes(lower(e.fromAddress), lower(pattern)) || Includes(lower(e.fromName), lower(pattern));
    assert MatchesHeader(lower, e, Ascii("to"), pattern) <==> Includes(lower(e.to), lower(pattern));
    assert MatchesHeader(lower, e, Ascii("cc"), pattern) <==> Includes(lower(e.cc), lower(pattern));
    assert MatchesHeader(lower, e, Ascii("bcc"), pattern) <==> Includes(lower(e.bcc), lower(pattern));
  }

  /** SEEN asks for the read mark, DELETED, DRAFT and JUNK for the status 3, 4 and 5; no other flag is ever set. */
  lemma FlagFinds(m: Mailbox, item: Item, flag: Flag)
    ensures var has := (flag == Seen && item.isRead == 1) || (flag == Deleted && item.status == 3)
                       || (flag == Draft && item.status == 4) || (flag == Junk && item.status == 5);
            (Sat(m, ANYTHING.(flag := [flag]), item) <==> has) && (Sat(m, ANYTHING.(notFlag := [flag]), item) <==> !has)
  {
    var with, without := ANYTHING.(flag := [flag]), ANYTHING.(notFlag := [flag]);
    assert with.flag[0] == flag && without.notFlag[0] == flag;
  }

  /** A set of UIDs or of sequence numbers finds the messages whose number is in it; numbers have 32 bits. */
  lemma SetFinds(m: Mailbox, item: Item, s: set<int>)
    requires 0 <= item.uid < 4_294_967_296 && 0 <= item.serial < 4_294_967_296
    ensures Sat(m, ANYTHING.(uid := [s]), item) <==> item.uid in s
    ensures Sat(m, ANYTHING.(seqNum := [s]), item) <==> item.serial in s
    ensures Uint32(item.uid + 4_294_967_296) == item.uid
  {
    var byUid, bySerial := ANYTHING.(uid := [s]), ANYTHING.(seqNum := [s]);
    assert byUid.uid[0] == s && bySerial.seqNum[0] == s;
  }

  /** SINCE and BEFORE ask for the date of arrival, SENTSINCE and SENTBEFORE for that of the message. */
  lemma DateFinds(m: Mailbox, item: Item, date: Time)
    requires date.instant != 0 && item.emailId in m.emails
    ensures var e := m.emails[item.emailId];
            (Sat(m, ANYTHING.(since := date), item) <==> OnOrAfter(e.createTime, date))
            && (Sat(m, ANYTHING.(before := date), item) <==> EarlierThan(e.createTime, date))
            && (Sat(m, ANYTHING.(sentSince := date), item) <==> OnOrAfter(e.sendDate, date))
            && (Sat(m, ANYTHING.(sentBefore := date), item) <==> EarlierThan(e.sendDate, date))
  {
    hide DayNumber;
  }

  /** LARGER and SMALLER are strict. */
  lemma SizeFinds(m: Mailbox, item: Item, size: int)
    requires size > 0 && item.emailId in m.emails
    ensures Sat(m, ANYTHING.(larger := size), item) <==> m.emails[item.emailId].size > size
    ensures Sat(m, ANYTHING.(smaller := size), item) <==> m.emails[item.emailId].size < size
  {
  }

  /** HEADER, BODY and TEXT ask what they say. */
  lemma TextKeyFinds(m: Mailbox, item: Item, field: HeaderField, pattern: bytes)
    requires item.emailId in m.emails
    ensures var e := m.emails[item.emailId];
            (Sat(m, ANYTHING.(header := [field]), item) <==> MatchesHeader(m.lower, e, field.key, field.value))
            && (Sat(m, ANYTHING.(body := [pattern]), item) <==> MatchesBody(m.lower, e, pattern))
            && (Sat(m, ANYTHING.(text := [pattern]), item) <==> MatchesText(m.lower, e, pattern))
  {
    hide MatchesHeader, MatchesBody, MatchesText;
    var h, b, t := ANYTHING.(header := [field]), ANYTHING.(body := [pattern]), ANYTHING.(text := [pattern]);
    assert h.header[0] == field && b.body[0] == pattern && t.text[0] == pattern;
  }
}
