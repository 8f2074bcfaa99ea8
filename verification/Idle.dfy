/**
 The registry of IMAP IDLE commands. Every critical section holds the registry's lock throughout, so a run is an
 interleaving of whole sections: a registration, the cleanup of a stopped command, a notice.
 */
module Idle {
  import opened Bytes
  import Ids

  datatype Connection = Connection(writer: int, mailbox: bytes)

  class IdleConnections {
    var writers: map<bytes, Connection>

    constructor ()
      ensures writers == map[]
    {
      writers := map[];
    }

    /** delete(writers, logId). */
    method Remove(logId: bytes)
      modifies this
      ensures writers == old(writers) - {logId}
    {
      writers := writers - {logId};
    }

    method Put(logId: bytes, connection: Connection)
      modifies this
      ensures writers == old(writers)[logId := connection]
    {
      writers := writers[logId := connection];
    }
  }

  /** A command that registered and was not yet cleaned up, with the object its cleanup holds on to. */
  datatype Session = Session(user: int, connection: Connection, connects: IdleConnections)

  type Users = map<int, map<bytes, Connection>>

  // ---- The sections on values

  function Registered(users: Users, user: int, logId: bytes, connection: Connection): Users {
    users[user := (if user in users then users[user] else map[])[logId := connection]]
  }

  function CleanedUp(users: Users, user: int, logId: bytes): Users {
    if user !in users then users
    else if users[user] - {logId} == map[] then users - {user}
    else users[user := users[user] - {logId}]
  }

  /** The registrations of some live commands, by user; a user without any has no entry. */
  ghost function UsersOf(live: map<bytes, Session>): Users {
    map u | u in (set l | l in live :: live[l].user) :: OfUser(live, u)
  }

  ghost function OfUser(live: map<bytes, Session>, user: int): map<bytes, Connection> {
    map l | l in live && live[l].user == user :: live[l].connection
  }

  lemma SameMap<K, V>(a: map<K, V>, b: map<K, V>)
    requires a.Keys == b.Keys && forall k :: k in a ==> a[k] == b[k]
    ensures a == b
  {
  }

  lemma RegisteredAt(users: Users, user: int, logId: bytes, connection: Connection)
    ensures var r := Registered(users, user, logId, connection);
            r.Keys == users.Keys + {user}
            && r[user] == (if user in users then users[user] else map[])[logId := connection]
            && forall u :: u in users && u != user ==> r[u] == users[u]
  {
  }

  lemma EnteredThenSet(users: Users, user: int, logId: bytes, connection: Connection)
    ensures var entered := if user in users then users else users[user := map[]];
            Registered(users, user, logId, connection) == entered[user := entered[user][logId := connection]]
  {
  }

  lemma CleanedUpAt(users: Users, user: int, logId: bytes)
    requires user in users
    ensures var r, left := CleanedUp(users, user, logId), users[user] - {logId};
            r.Keys == (if left == map[] then users.Keys - {user} else users.Keys)
            && (left != map[] ==> r[user] == left)
            && forall u :: u in users && u != user ==> r[u] == users[u]
  {
  }

  lemma UsersAt(live: map<bytes, Session>, user: int)
    ensures user in UsersOf(live) <==> OfUser(live, user) != map[]
    ensures user in UsersOf(live) ==> UsersOf(live)[user] == OfUser(live, user)
  {
    if OfUser(live, user) != map[] {
      var l := Ids.Pick(OfUser(live, user).Keys);
      assert live[l].user == user;
    }
    if user in UsersOf(live) {
      var l :| l in live && live[l].user == user;
      assert l in OfUser(live, user);
    }
  }

  /** Adding a command to the live ones, or putting it in the place of one of its user, is registering it. */
  lemma RegisterLive(live: map<bytes, Session>, logId: bytes, s: Session)
    requires logId in live ==> live[logId].user == s.user
    ensures UsersOf(live[logId := s]) == Registered(UsersOf(live), s.user, logId, s.connection)
  {
    hide UsersOf, Registered;
    var more := live[logId := s];
    RegisteredAt(UsersOf(live), s.user, logId, s.connection);
    forall u
      ensures u in UsersOf(more) <==> u in UsersOf(live) || u == s.user
      ensures u in UsersOf(more)
              ==> UsersOf(more)[u] == Registered(UsersOf(live), s.user, logId, s.connection)[u]
    {
      UsersAt(live, u);
      UsersAt(more, u);
      if u == s.user {
        assert OfUser(more, u) == OfUser(live, u)[logId := s.connection];
        assert logId in OfUser(more, u);
      } else {
        assert OfUser(more, u) == OfUser(live, u);
      }
    }
    SameMap(UsersOf(more), Registered(UsersOf(live), s.user, logId, s.connection));
  }

  /** Removing a command from the live ones is cleaning it up. */
  lemma CleanLive(live: map<bytes, Session>, logId: bytes)
    requires logId in live
    ensures UsersOf(live - {logId}) == CleanedUp(UsersOf(live), live[logId].user, logId)
  {
    hide UsersOf, CleanedUp;
    var less, user := live - {logId}, live[logId].user;
    UsersAt(live, user);
    assert logId in OfUser(live, user);
    CleanedUpAt(UsersOf(live), user, logId);
    assert OfUser(less, user) == OfUser(live, user) - {logId};
    forall u
      ensures u in UsersOf(less) <==> u in UsersOf(live) && (u == user ==> OfUser(less, user) != map[])
      ensures u in UsersOf(less) ==> UsersOf(less)[u] == CleanedUp(UsersOf(live), user, logId)[u]
    {
      UsersAt(live, u);
      UsersAt(less, u);
      if u != user {
        assert OfUser(less, u) == OfUser(live, u);
      }
    }
    SameMap(UsersOf(less), CleanedUp(UsersOf(live), user, logId));
  }

  /** A second command of a user survives the cleanup of the first exactly when their log ids differ. */
  lemma SurvivesIff(users: Users, user: int, first: bytes, c: Connection, second: bytes, d: Connection)
    ensures var after := CleanedUp(Registered(Registered(users, user, first, c), user, second, d), user, first);
            (user in after && second in after[user] && after[user][second] == d) <==> first != second
  {
    var both := Registered(Registered(users, user, first, c), user, second, d);
    if first != second {
      assert second in both[user] - {first};
    }
  }

  // ---- Schedules

  datatype Event = Begin(user: int, logId: bytes, connection: Connection) | End(id: bytes) | Notify(to: int, email: int)

  /** The commands running after a schedule that starts with some; stopping what does not run is not a step. */
  function Running(start: map<bytes, (int, Connection)>, schedule: seq<Event>): map<bytes, (int, Connection)>
    decreases |schedule|
  {
    if schedule == [] then start
    else
      var n := |schedule| - 1;
      var before := Running(start, schedule[..n]);
      match schedule[n]
      case Begin(user, logId, connection) => before[logId := (user, connection)]
      case End(id) => before - {id}
      case Notify(_, _) => before
  }

  /** No command begins under the log id of one that still runs. */
  predicate NoReuse(start: map<bytes, (int, Connection)>, schedule: seq<Event>) {
    forall k :: 0 <= k < |schedule| && schedule[k].Begin? ==> schedule[k].logId !in Running(start, schedule[..k])
  }

  /** Nothing ends under a log id. */
  predicate Untouched(logId: bytes, schedule: seq<Event>) {
    End(logId) !in schedule
  }

  // ---- The registry

  type Table = map<int, IdleConnections>

  /** No two users share an object. */
  ghost predicate Separate(at: Table) {
    forall u, v :: u in at && v in at && u != v ==> at[u] != at[v]
  }

  /** The object each live command will clean up is the one now stored for its user. */
  ghost predicate Current(live: map<bytes, Session>, at: Table) {
    forall l :: l in live ==> live[l].user in at && at[live[l].user] == live[l].connects
  }

  lemma CurrentRegistered(live: map<bytes, Session>, at: Table, logId: bytes, s: Session)
    requires Current(live, at) && (s.user in at ==> at[s.user] == s.connects)
    ensures Current(live[logId := s], at[s.user := s.connects])
  {
  }

  lemma CurrentEntered(live: map<bytes, Session>, at: Table, user: int, connects: IdleConnections)
    requires user !in at
    ensures Current(live, at) ==> Current(live, at[user := connects])
  {
  }

  lemma SeparateWithout(at: Table, user: int)
    requires Separate(at)
    ensures Separate(at - {user})
  {
  }

  /** A user's other live commands hold on to an entry that is not empty. */
  lemma CurrentCleaned(live: map<bytes, Session>, at: Table, logId: bytes)
    requires logId in live && Current(live, at)
    ensures var user := live[logId].user;
            Current(live - {logId}, at)
            && (user !in CleanedUp(UsersOf(live), user, logId) ==> Current(live - {logId}, at - {user}))
  {
    var user, less := live[logId].user, live - {logId};
    CleanLive(live, logId);
    forall l | l in less && less[l].user == user
      ensures user in UsersOf(less)
    {
    }
  }

  lemma CurrentAt(live: map<bytes, Session>, at: Table, logId: bytes)
    requires Current(live, at) && logId in live
    ensures live[logId].user in at && at[live[logId].user] == live[logId].connects
  {
  }

  lemma SeparateAt(at: Table, user: int)
    requires Separate(at)
    ensures user in at ==> forall u :: u in at && u != user ==> at[u] != at[user]
  {
  }

  lemma SeparateWith(at: Table, user: int, connects: IdleConnections)
    requires Separate(at) && forall u :: u in at && u != user ==> at[u] != connects
    ensures Separate(at[user := connects])
  {
  }

  class Registry {
    var userConnects: map<int, IdleConnections>

    /** What the entries hold, the commands that run, and every object made for them. */
    ghost var contents: Users
    ghost var live: map<bytes, Session>
    ghost var objects: set<IdleConnections>

    /** Each entry is one of the objects and holds what `contents` says. */
    ghost predicate Agrees()
      reads this`userConnects, this`contents, this`objects, objects
    {
      userConnects.Keys == contents.Keys
      && forall u :: u in userConnects ==> userConnects[u] in objects && userConnects[u].writers == contents[u]
    }

    ghost predicate Sound()
      reads this`userConnects, this`contents, this`objects, objects
    {
      Agrees() && Separate(userConnects)
    }

    /** The registry holds exactly the live commands, in the objects they know; so no entry is empty. */
    ghost predicate Valid()
      reads this, objects
    {
      Sound() && contents == UsersOf(live) && Current(live, userConnects)
    }

    constructor ()
      ensures Valid() && live == map[] && contents == map[] && objects == {}
    {
      userConnects := map[];
      contents := map[];
      live := map[];
      objects := {};
    }

    /** Load, and Store of a new object when there is none. */
    method Entry(user: int) returns (connects: IdleConnections)
      requires Sound()
      modifies this
      ensures Sound() && contents == if user in old(contents) then old(contents) else old(contents)[user := map[]]
      ensures user in userConnects && userConnects[user] == connects
      ensures objects == old(objects) + {connects} && fresh(objects - old(objects))
      ensures live == old(live)
      ensures if user in old(userConnects) then connects == old(userConnects)[user] else fresh(connects)
      ensures old(Current(live, userConnects)) ==> Current(live, userConnects)
    {
      hide Separate, Current;
      SeparateAt(userConnects, user);
      if user in userConnects {
        connects := userConnects[user];
      } else {
        connects := new IdleConnections();
        SeparateWith(userConnects, user, connects);
        CurrentEntered(live, userConnects, user, connects);
        userConnects := userConnects[user := connects];
        objects := objects + {connects};
        contents := contents[user := map[]];
      }
    }

    lemma ValidIsSound()
      requires Valid()
      ensures Sound()
    {
    }

    lemma Known()
      requires Agrees()
      ensures userConnects.Keys == contents.Keys && forall u :: u in userConnects ==> userConnects[u] in objects
    {
    }

    lemma Holds(user: int)
      requires Agrees() && user in userConnects
      ensures userConnects[user].writers == contents[user]
    {
    }

    /** The new writer, in the entry of its user. */
    method SetWriter(user: int, logId: bytes, connection: Connection)
      requires Sound() && user in userConnects
      modifies this`contents, userConnects[user]
      ensures Sound() && contents == old(contents)[user := old(contents)[user][logId := connection]]
    {
      hide Separate;
      SeparateAt(userConnects, user);
      userConnects[user].Put(logId, connection);
      contents := contents[user := contents[user][logId := connection]];
    }

    /** delete and the removal of an entry left empty, on the object that is stored. */
    method ClearWriter(user: int, logId: bytes)
      requires Sound() && user in userConnects
      modifies this`contents, this`userConnects, userConnects[user]
      ensures Sound() && contents == CleanedUp(old(contents), user, logId)
      ensures old(userConnects[user]).writers == old(userConnects[user].writers) - {logId}
      ensures userConnects
              == if old(userConnects[user]).writers == map[] then old(userConnects) - {user} else old(userConnects)
    {
      hide CleanedUp, Separate;
      CleanedUpAt(contents, user, logId);
      SeparateAt(userConnects, user);
      SeparateWithout(userConnects, user);
      var connects := userConnects[user];
      connects.Remove(logId);
      if connects.writers == map[] {
        userConnects := userConnects - {user};
      }
      contents := CleanedUp(contents, user, logId);
    }

    lemma Stored(logId: bytes)
      requires Valid() && logId in live
      ensures live[logId].connects in objects
    {
      CurrentAt(live, userConnects, logId);
    }

    /** The first section of Idle. */
    method Register(user: int, logId: bytes, connection: Connection) returns (connects: IdleConnections)
      requires Sound()
      modifies this, objects
      ensures Sound() && contents == Registered(old(contents), user, logId, connection)
      ensures user in userConnects && userConnects[user] == connects
      ensures objects == old(objects) + {connects} && fresh(objects - old(objects))
      ensures live == old(live)[logId := Session(user, connection, connects)]
      ensures old(Valid() && (logId in live ==> live[logId].user == user)) ==> Valid()
      ensures if user in old(userConnects) then connects == old(userConnects)[user] else fresh(connects)
      ensures forall o :: o in old(objects) && o != connects ==> o.writers == old(o.writers)
    {
      hide Registered, Separate, Current, UsersOf, Agrees;
      EnteredThenSet(contents, user, logId, connection);
      connects := Entry(user);
      Known();
      SetWriter(user, logId, connection);
      if old(Valid() && (logId in live ==> live[logId].user == user)) {
        CurrentRegistered(old(live), userConnects, logId, Session(user, connection, connects));
        assert userConnects == userConnects[user := connects];
        RegisterLive(old(live), logId, Session(user, connection, connects));
      }
      live := live[logId := Session(user, connection, connects)];
    }

    /** The section of the cleanup goroutine, on the object its command registered with. */
    method Cleanup(user: int, logId: bytes, connects: IdleConnections)
      requires Sound() && connects in objects
      modifies this, objects
      ensures objects == old(objects) && live == old(live) - {logId}
      ensures connects.writers == old(connects.writers) - {logId}
      ensures userConnects == if connects.writers == map[] then old(userConnects) - {user} else old(userConnects)
      ensures old(user in userConnects && userConnects[user] == connects)
              ==> Sound() && contents == CleanedUp(old(contents), user, logId)
      ensures old(Valid() && logId in live && live[logId].user == user && live[logId].connects == connects) ==> Valid()
    {
      hide CleanedUp, Separate, Current, UsersOf, Agrees;
      if user in userConnects && userConnects[user] == connects {
        ClearWriter(user, logId);
      } else {
        connects.Remove(logId);
        if connects.writers == map[] {
          userConnects := userConnects - {user};
        }
      }
      live := live - {logId};
      if old(Valid() && logId in live && live[logId].user == user && live[logId].connects == connects) {
        CurrentAt(old(live), old(userConnects), logId);
        CleanLive(old(live), logId);
        CurrentCleaned(old(live), old(userConnects), logId);
        Known();
      }
    }

    /** The section of IdleNotice: every registered connection of the user, in the order of a map. */
    method Notice(userId: int, emailId: int) returns (idleConnects: seq<Connection>, ghost logIds: seq<bytes>)
      requires Sound()
      ensures (userId == 0 || emailId == 0 || userId !in contents) ==> idleConnects == []
      ensures userId != 0 && emailId != 0 && userId in contents ==> Lists(contents[userId], logIds, idleConnects)
    {
      idleConnects, logIds := [], [];
      if userId == 0 || emailId == 0 || userId !in userConnects {
        return;
      }
      var connects := userConnects[userId];
      var left := connects.writers.Keys;
      while left != {}
        invariant left <= connects.writers.Keys
        invariant Lists(connects.writers - left, logIds, idleConnects)
        decreases left
      {
        ghost var some := Ids.Pick(left);
        var logId :| logId in left;
        ListsOneMore(connects.writers, left, logId, logIds, idleConnects);
        idleConnects := idleConnects + [connects.writers[logId]];
        logIds := logIds + [logId];
        left := left - {logId};
      }
      assert connects.writers - {} == connects.writers;
    }
  }

  /** `connections` are the values of `writers`, each key once. */
  ghost predicate Lists(writers: map<bytes, Connection>, logIds: seq<bytes>, connections: seq<Connection>) {
    |logIds| == |connections| && (forall i, j :: 0 <= i < j < |logIds| ==> logIds[i] != logIds[j])
    && (forall l :: l in logIds <==> l in writers)
    && forall i :: 0 <= i < |logIds| ==> logIds[i] in writers && connections[i] == writers[logIds[i]]
  }

  lemma ListsOneMore(writers: map<bytes, Connection>, left: set<bytes>, logId: bytes, logIds: seq<bytes>,
                     connections: seq<Connection>)
    requires left <= writers.Keys && logId in left && Lists(writers - left, logIds, connections)
    ensures Lists(writers - (left - {logId}), logIds + [logId], connections + [writers[logId]])
  {
    assert logId !in logIds;
    var more := writers - (left - {logId});
    assert forall l :: l in more <==> l in writers - left || l == logId;
  }

  ghost predicate Tracks(live: map<bytes, Session>, running: map<bytes, (int, Connection)>) {
    live.Keys == running.Keys && forall l :: l in live ==> running[l] == (live[l].user, live[l].connection)
  }

  lemma RunningStep(start: map<bytes, (int, Connection)>, schedule: seq<Event>, k: nat)
    requires k < |schedule|
    ensures var before, after := Running(start, schedule[..k]), Running(start, schedule[..k + 1]);
            match schedule[k]
            case Begin(user, logId, connection) => after == before[logId := (user, connection)]
            case End(id) => after == before - {id}
            case Notify(_, _) => after == before
    ensures Running(start, schedule[..0]) == start
  {
    assert schedule[..k + 1][..k] == schedule[..k];
  }

  lemma RunningNothing(start: map<bytes, (int, Connection)>, schedule: seq<Event>)
    ensures Running(start, schedule[..0]) == start
  {
  }

  lemma TracksBegin(live: map<bytes, Session>, running: map<bytes, (int, Connection)>, logId: bytes, s: Session)
    requires Tracks(live, running)
    ensures Tracks(live[logId := s], running[logId := (s.user, s.connection)])
  {
  }

  lemma TracksKeys(live: map<bytes, Session>, running: map<bytes, (int, Connection)>)
    requires Tracks(live, running)
    ensures live.Keys == running.Keys
  {
  }

  lemma TracksEnd(live: map<bytes, Session>, running: map<bytes, (int, Connection)>, id: bytes)
    requires Tracks(live, running)
    ensures Tracks(live - {id}, running - {id})
    ensures id !in live ==> live - {id} == live && running - {id} == running
  {
  }

  /** The sections of a schedule, one after the other; `waiting` are the cleanups to come. */
  method Continue(r: Registry, waiting: map<bytes, Session>, schedule: seq<Event>,
                  ghost start: map<bytes, (int, Connection)>)
    returns (still: map<bytes, Session>)
    requires r.Valid() && waiting == r.live && Tracks(waiting, start) && NoReuse(start, schedule)
    modifies r, r.objects
    ensures r.Valid() && still == r.live && Tracks(still, Running(start, schedule))
    ensures fresh(r.objects - old(r.objects))
    ensures forall l :: l in waiting && Untouched(l, schedule) ==> l in still && still[l] == waiting[l]
  {
    hide UsersOf, Running, Tracks, Current, Separate;
    still := waiting;
    RunningNothing(start, schedule);
    for k := 0 to |schedule|
      invariant r.Valid() && still == r.live && Tracks(still, Running(start, schedule[..k]))
      invariant fresh(r.objects - old(r.objects))
      invariant forall l :: l in waiting && Untouched(l, schedule) ==> l in still && still[l] == waiting[l]
    {
      RunningStep(start, schedule, k);
      match schedule[k]
      case Begin(user, logId, connection) =>
        TracksKeys(still, Running(start, schedule[..k]));
        assert logId !in still;
        var connects := r.Register(user, logId, connection);
        TracksBegin(still, Running(start, schedule[..k]), logId, Session(user, connection, connects));
        still := still[logId := Session(user, connection, connects)];
      case End(id) =>
        TracksEnd(still, Running(start, schedule[..k]), id);
        if id in still {
          r.Stored(id);
          r.Cleanup(still[id].user, id, still[id].connects);
          still := still - {id};
        }
      case Notify(to, email) =>
        var _, _ := r.Notice(to, email);
    }
    assert schedule[..|schedule|] == schedule;
  }

  /**
   Any interleaving without reuse of a running log id: the registry is sound between any two sections and holds
   exactly the running commands.
   */
  method Run(schedule: seq<Event>) returns (r: Registry)
    requires NoReuse(map[], schedule)
    ensures fresh(r) && r.Valid() && Tracks(r.live, Running(map[], schedule))
  {
    hide UsersOf, Running, Current, Separate;
    r := new Registry();
    var _ := Continue(r, map[], schedule, map[]);
  }

  /**
   The converse: once a command begins under the log id of one that still runs for its user, whatever happens to the
   others, the first of the two cleanups leaves no registration under that id, although the other of the two still
   runs. All other commands keep theirs.
   */
  method RunWithReuse(before: seq<Event>, logId: bytes, d: Connection, after: seq<Event>, older: bool)
    returns (r: Registry)
    requires NoReuse(map[], before) && logId in Running(map[], before)
    requires var running := Running(map[], before);
             NoReuse(running[logId := (running[logId].0, d)], after) && Untouched(logId, after)
    ensures var running := Running(map[], before);
            var user := running[logId].0;
            (user in r.contents ==> logId !in r.contents[user])
            && r.Valid() && Tracks(r.live, Running(running[logId := (user, d)], after) - {logId})
  {
    hide UsersOf, Running, Current, Separate, Untouched, NoReuse;
    r := new Registry();
    ghost var running := Running(map[], before);
    NothingRuns();
    var waiting := Continue(r, map[], before, map[]);
    TracksAt(waiting, running, logId);
    var user, first := waiting[logId].user, waiting[logId].connects;
    CurrentAt(waiting, r.userConnects, logId);
    var second := r.Register(user, logId, d);
    TracksBegin(waiting, running, logId, Session(user, d, second));
    waiting := waiting[logId := Session(user, d, second)];
    waiting := Continue(r, waiting, after, running[logId := (user, d)]);
    r.Stored(logId);
    r.Cleanup(user, logId, if older then first else second);
    TracksEnd(waiting, Running(running[logId := (user, d)], after), logId);
    UsersAt(r.live, user);
  }

  lemma NothingRuns()
    ensures Tracks(map[], map[])
  {
  }

  lemma TracksAt(live: map<bytes, Session>, running: map<bytes, (int, Connection)>, logId: bytes)
    requires Tracks(live, running) && logId in running
    ensures logId in live && live[logId].user == running[logId].0
  {
  }

  /** Two commands of a user under one log id, and the cleanup of the first: the other's object is not stored. */
  method Doubled(user: int, logId: bytes, c: Connection, d: Connection)
    returns (r: Registry, second: IdleConnections)
    ensures fresh(r) && fresh(r.objects) && r.Sound() && second in r.objects
    ensures second.writers == map[] && user !in r.userConnects
  {
    hide UsersOf, Separate, Current, Registered, CleanedUp, Registry.Agrees, Registry.Valid;
    r := new Registry();
    r.ValidIsSound();
    RegisteredAt(r.contents, user, logId, c);
    var first := r.Register(user, logId, c);
    RegisteredAt(r.contents, user, logId, d);
    second := r.Register(user, logId, d);
    r.Holds(user);
    assert first.writers.Keys == {logId};
    r.Cleanup(user, logId, first);
    assert first.writers == map[];
  }

  /**
   One log id for two commands of a user, both registered before the first was cleaned up: the second's cleanup
   then works on an object no longer stored and removes the entry of a third command that is still running.
   */
  method ReusedLogId(user: int, logId: bytes, c: Connection, d: Connection, third: bytes, e: Connection)
    returns (r: Registry)
    requires logId != third
    ensures third in r.live && r.live[third].user == user && user !in r.userConnects
  {
    hide UsersOf, Separate, Current, Registered, CleanedUp, Registry.Agrees, Registry.Valid;
    var second;
    r, second := Doubled(user, logId, c, d);
    var other := r.Register(user, third, e);
    assert second.writers == map[];
    r.Cleanup(user, logId, second);
  }
}
