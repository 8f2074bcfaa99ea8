/** Mailbox groups: a forest kept in one table, with the path of every group cached in its row. */
module Groups {
  import opened Bytes
  import opened MailDb
  import Ids
  import Store

  datatype Group = Group(name: bytes, parentId: int, userId: int, fullPath: bytes)

  datatype Table = Table(rows: map<int, Group>, nextId: int)

  const SLASH: bytes := [0x2F]

  /** What a query for a missing row leaves in the variable. */
  const NO_GROUP: Group := Group([], 0, 0, [])

  /** A group's parent is 0 or an older group of the same user. */
  predicate ParentOk(t: Table, id: int, g: Group) {
    g.parentId == 0
    || (g.parentId in t.rows && g.parentId < id && t.rows[g.parentId].userId == g.userId)
  }

  predicate Forest(t: Table) {
    0 < t.nextId
    && forall id :: id in t.rows ==> 0 < id < t.nextId && ParentOk(t, id, t.rows[id])
  }

  // ---- Reading

  /** getLayerName: the names from the root down, joined by slashes. */
  function LayerName(t: Table, item: Group): bytes
    requires Forest(t)
    decreases if item.parentId == 0 then 0 else if item.parentId in t.rows then 1 + item.parentId else 1
  {
    if item.parentId == 0 then item.name
    else
      var parent := if item.parentId in t.rows then t.rows[item.parentId] else NO_GROUP;
      LayerName(t, parent) + SLASH + item.name
  }

  /** The path of a row from the names of its ancestors. */
  function PathOf(t: Table, id: int): bytes
    requires Forest(t) && id in t.rows
    decreases id
  {
    var g := t.rows[id];
    if g.parentId == 0 then g.name else PathOf(t, g.parentId) + SLASH + g.name
  }

  lemma {:induction false} LayerNameIsPath(t: Table, id: int)
    requires Forest(t) && id in t.rows
    ensures LayerName(t, t.rows[id]) == PathOf(t, id)
    decreases id
  {
    if t.rows[id].parentId != 0 {
      LayerNameIsPath(t, t.rows[id].parentId);
    }
  }

  /** `root` is a proper ancestor of `x`. */
  predicate Below(t: Table, root: int, x: int)
    requires Forest(t)
    decreases if x > 0 then x else 0
  {
    x in t.rows && (t.rows[x].parentId == root || (t.rows[x].parentId != 0 && Below(t, root, t.rows[x].parentId)))
  }

  // ---- getAllChildId

  /** `x` is `c` or lies below it. */
  predicate AtOrBelow(t: Table, c: int, x: int)
    requires Forest(t)
  {
    x == c || Below(t, c, x)
  }

  lemma {:induction false} BelowIsYounger(t: Table, root: int, x: int)
    requires Forest(t) && Below(t, root, x) && root > 0
    ensures root < x
    decreases x
  {
    if t.rows[x].parentId != root {
      BelowIsYounger(t, root, t.rows[x].parentId);
    }
  }

  /** Whoever lies below `root` is a child of it or lies below one. */
  lemma {:induction false} BelowThroughChild(t: Table, root: int, x: int) returns (c: int)
    requires Forest(t) && Below(t, root, x)
    ensures c in t.rows && t.rows[c].parentId == root && AtOrBelow(t, c, x)
    ensures t.rows[c].userId == t.rows[x].userId
    decreases x
  {
    if t.rows[x].parentId == root {
      c := x;
    } else {
      c := BelowThroughChild(t, root, t.rows[x].parentId);
    }
  }

  lemma {:induction false} BelowTransitive(t: Table, root: int, c: int, x: int)
    requires Forest(t) && c in t.rows && t.rows[c].parentId == root && AtOrBelow(t, c, x)
    ensures Below(t, root, x)
    decreases x
  {
    if x != c && t.rows[x].parentId != c {
      BelowTransitive(t, root, c, t.rows[x].parentId);
    }
  }

  /** Two children of one parent have no descendant in common. */
  lemma {:induction false} SubtreesDisjoint(t: Table, a: int, b: int, x: int)
    requires Forest(t) && a in t.rows && b in t.rows && t.rows[a].parentId == t.rows[b].parentId
    requires AtOrBelow(t, a, x) && AtOrBelow(t, b, x)
    ensures a == b
    decreases if x > 0 then x else 0
  {
    if a != b {
      NotBelowSibling(t, a, b);
      NotBelowSibling(t, b, a);
      if x != a && x != b {
        SubtreesDisjoint(t, a, b, t.rows[x].parentId);
      }
    }
  }

  lemma NotBelowSibling(t: Table, a: int, b: int)
    requires Forest(t) && a in t.rows && b in t.rows && t.rows[a].parentId == t.rows[b].parentId && a != b
    ensures !Below(t, a, b)
  {
    var p := t.rows[b].parentId;
    if p != 0 && Below(t, a, p) {
      BelowIsYounger(t, a, p);
    }
  }

  /** What getAllChildId returns: x belongs to the user and lies below the root. */
  ghost predicate Lists(t: Table, user: int, root: int, x: int)
    requires Forest(t)
  {
    Below(t, root, x) && t.rows[x].userId == user
  }

  lemma {:induction false} SameUser(t: Table, c: int, x: int)
    requires Forest(t) && c in t.rows && AtOrBelow(t, c, x)
    ensures t.rows[x].userId == t.rows[c].userId
    decreases x
  {
    if x != c && t.rows[x].parentId != c {
      SameUser(t, c, t.rows[x].parentId);
    }
  }

  predicate NoRepeats(s: seq<int>) {
    forall i, j :: 0 <= i < j < |s| ==> s[i] != s[j]
  }

  lemma NoRepeatsAppend(a: seq<int>, b: seq<int>)
    requires NoRepeats(a) && NoRepeats(b) && forall x :: x in a ==> x !in b
    ensures NoRepeats(a + b)
  {
    forall i, j | 0 <= i < j < |a + b|
      ensures (a + b)[i] != (a + b)[j]
    {
      if i < |a| <= j {
        assert a[i] in a && b[j - |a|] in b;
      }
    }
  }

  /** The rows `parent_id=? and user_id=?` selects. */
  function Children(t: Table, user: int, root: int): set<int> {
    set id | id in t.rows && t.rows[id].parentId == root && t.rows[id].userId == user
  }

  /**
   getAllChildId: for every child its descendants, then the child. The rows may come in any order; the result
   is exactly the user's groups below the root, each once.
   */
  method GetAllChildId(t: Table, user: int, root: int) returns (ret: seq<int>)
    requires Forest(t)
    ensures forall x :: x in ret <==> Lists(t, user, root, x)
    ensures NoRepeats(ret)
    decreases t.nextId - root
  {
    hide Below, Lists;
    ret := [];
    var ids := Children(t, user, root);
    while ids != {}
      invariant ids <= Children(t, user, root)
      invariant forall x :: x in ret <==> exists c :: c in Children(t, user, root) - ids && AtOrBelow(t, c, x)
      invariant NoRepeats(ret)
      decreases ids
    {
      ghost var some := Ids.Pick(ids);
      var item :| item in ids;
      YoungerChild(t, root, item);
      var deeper := GetAllChildId(t, user, item);
      ghost var before := ret;
      SubtreeList(t, user, item, deeper);
      SubtreeIsNew(t, user, root, Children(t, user, root) - ids, item, before, deeper + [item]);
      NoRepeatsAppend(before, deeper + [item]);
      ret := ret + deeper;
      ret := ret + [item];
      assert ret == before + (deeper + [item]);
      ids := ids - {item};
      GrownList(t, Children(t, user, root) - ids - {item}, item, before, deeper + [item]);
      assert Children(t, user, root) - ids == (Children(t, user, root) - ids - {item}) + {item};
    }
    ListsIff(t, user, root);
  }

  /** A child and what is listed below it are its subtree. */
  lemma SubtreeList(t: Table, user: int, item: int, deeper: seq<int>)
    requires Forest(t) && item in t.rows && t.rows[item].userId == user
    requires NoRepeats(deeper) && forall x :: x in deeper <==> Lists(t, user, item, x)
    ensures NoRepeats(deeper + [item])
    ensures forall x :: x in deeper + [item] <==> AtOrBelow(t, item, x)
  {
    hide Below;
    NotBelowItself(t, item);
    NoRepeatsAppend(deeper, [item]);
    forall x
      ensures x in deeper + [item] <==> AtOrBelow(t, item, x)
    {
      if Below(t, item, x) {
        SameUser(t, item, x);
      }
    }
  }

  /** Subtrees of different children share nothing. */
  lemma SubtreeIsNew(t: Table, user: int, root: int, done: set<int>, item: int, listed: seq<int>, subtree: seq<int>)
    requires Forest(t) && done <= Children(t, user, root) && item in Children(t, user, root) - done
    requires forall x :: x in listed <==> exists c :: c in done && AtOrBelow(t, c, x)
    requires forall x :: x in subtree <==> AtOrBelow(t, item, x)
    ensures forall x :: x in listed ==> x !in subtree
  {
    hide Below, AtOrBelow;
    forall x | x in listed
      ensures x !in subtree
    {
      if x in subtree {
        var c :| c in done && AtOrBelow(t, c, x);
        SubtreesDisjoint(t, c, item, x);
      }
    }
  }

  lemma GrownList(t: Table, done: set<int>, item: int, listed: seq<int>, subtree: seq<int>)
    requires Forest(t)
    requires forall x :: x in listed <==> exists c :: c in done && AtOrBelow(t, c, x)
    requires forall x :: x in subtree <==> AtOrBelow(t, item, x)
    ensures forall x :: x in listed + subtree <==> exists c :: c in done + {item} && AtOrBelow(t, c, x)
  {
    hide Below, AtOrBelow;
    forall x
      ensures x in listed + subtree <==> exists c :: c in done + {item} && AtOrBelow(t, c, x)
    {
      if x in listed {
        var c :| c in done && AtOrBelow(t, c, x);
        assert c in done + {item};
      }
      if x in subtree {
        assert item in done + {item};
      }
    }
  }

  /** The user's groups below the root are the subtrees of its children. */
  lemma ListsIff(t: Table, user: int, root: int)
    requires Forest(t)
    ensures forall x :: Lists(t, user, root, x) <==> exists c :: c in Children(t, user, root) && AtOrBelow(t, c, x)
  {
    hide Below;
    forall x
      ensures Lists(t, user, root, x) <==> exists c :: c in Children(t, user, root) && AtOrBelow(t, c, x)
    {
      if Lists(t, user, root, x) {
        var c := BelowThroughChild(t, root, x);
        assert c in Children(t, user, root);
      }
      if c :| c in Children(t, user, root) && AtOrBelow(t, c, x) {
        BelowTransitive(t, root, c, x);
        SameUser(t, c, x);
      }
    }
  }

  lemma YoungerChild(t: Table, root: int, c: int)
    requires Forest(t) && c in t.rows && t.rows[c].parentId == root
    ensures root < c
  {
  }

  lemma NotBelowItself(t: Table, c: int)
    requires Forest(t) && c in t.rows
    ensures !Below(t, c, c)
  {
    if Below(t, c, c) {
      BelowIsYounger(t, c, c);
    }
  }

  // ---- Creating, renaming, deleting

  predicate HasName(t: Table, user: int, name: bytes) {
    exists id :: id in t.rows && t.rows[id].name == name && t.rows[id].userId == user
  }

  function Inserted(t: Table, g: Group): Table {
    Table(t.rows[t.nextId := g], t.nextId + 1)
  }

  /** CreateGroup: nothing happens when the user has a group of that name. The parent is taken as given. */
  function Created(t: Table, user: int, name: bytes, parent: int): Table
    requires Forest(t)
  {
    if HasName(t, user, name) then t
    else Inserted(t, Group(name, parent, user, LayerName(t, Group(name, parent, user, []))))
  }

  /** xorm's Update writes the columns whose new value is not empty. */
  function OrKeep(value: bytes, stored: bytes): bytes {
    if value == [] then stored else value
  }

  /** Rename of the row `id`: name and path of this row only. */
  function Renamed(t: Table, id: int, newName: bytes): Table
    requires Forest(t) && id in t.rows
  {
    var g := t.rows[id];
    var path := LayerName(t, g.(name := newName));
    t.(rows := t.rows[id := g.(name := OrKeep(newName, g.name), fullPath := OrKeep(path, g.fullPath))])
  }

  /** The rows a deletion of `id` by `user` covers. */
  function Doomed(t: Table, user: int, id: int): set<int>
    requires Forest(t)
  {
    set x | x in t.rows && t.rows[x].userId == user && AtOrBelow(t, id, x)
  }

  function Deleted(t: Table, user: int, id: int): Table
    requires Forest(t)
  {
    t.(rows := t.rows - Doomed(t, user, id))
  }

  // ---- The forest

  predicate ParentGiven(t: Table, user: int, parent: int) {
    parent == 0 || (parent in t.rows && t.rows[parent].userId == user)
  }

  /** Creating keeps the forest exactly when the parent is 0 or one of the user's groups, or nothing is created. */
  lemma CreateForestIff(t: Table, user: int, name: bytes, parent: int)
    requires Forest(t)
    ensures Forest(Created(t, user, name, parent)) <==> HasName(t, user, name) || ParentGiven(t, user, parent)
  {
    hide LayerName;
    var after := Created(t, user, name, parent);
    if !HasName(t, user, name) {
      assert t.nextId !in t.rows;
      forall id | id in t.rows
        ensures after.rows[id] == t.rows[id] && ParentOk(after, id, after.rows[id])
      {
        assert ParentOk(t, id, t.rows[id]);
      }
      if Forest(after) {
        assert ParentOk(after, t.nextId, after.rows[t.nextId]);
      }
    }
  }

  /** A group can be made its own parent by naming the key it is about to get. */
  lemma SelfParentPossible(t: Table, user: int, name: bytes)
    requires Forest(t) && !HasName(t, user, name)
    ensures var after := Created(t, user, name, t.nextId);
            after.rows[t.nextId].parentId == t.nextId && !Forest(after)
  {
    hide LayerName;
    CreateForestIff(t, user, name, t.nextId);
  }

  lemma RenameForest(t: Table, id: int, newName: bytes)
    requires Forest(t) && id in t.rows
    ensures Forest(Renamed(t, id, newName))
  {
    hide LayerName;
    var after := Renamed(t, id, newName);
    forall x | x in after.rows
      ensures 0 < x < after.nextId && ParentOk(after, x, after.rows[x])
    {
      assert ParentOk(t, x, t.rows[x]);
    }
  }

  /** Whose parent goes, goes too. */
  lemma DoomedIsClosed(t: Table, user: int, id: int, x: int)
    requires Forest(t) && x in t.rows && t.rows[x].parentId in Doomed(t, user, id)
    ensures x in Doomed(t, user, id)
  {
    assert ParentOk(t, x, t.rows[x]);
  }

  lemma DeleteForest(t: Table, user: int, id: int)
    requires Forest(t)
    ensures Forest(Deleted(t, user, id))
  {
    hide Doomed;
    var after := Deleted(t, user, id);
    forall x | x in after.rows
      ensures 0 < x < after.nextId && ParentOk(after, x, after.rows[x])
    {
      assert ParentOk(t, x, t.rows[x]);
      if t.rows[x].parentId in Doomed(t, user, id) {
        DoomedIsClosed(t, user, id, x);
      }
    }
  }

  /** Deleting an owned group removes that group and what lies below it, nothing else. */
  lemma DeleteExact(t: Table, user: int, id: int)
    requires Forest(t) && id in t.rows && t.rows[id].userId == user
    ensures Deleted(t, user, id).rows.Keys == set x | x in t.rows && !AtOrBelow(t, id, x)
    ensures forall x :: x in Deleted(t, user, id).rows ==> Deleted(t, user, id).rows[x] == t.rows[x]
  {
    hide Below;
    forall x | x in t.rows && AtOrBelow(t, id, x)
      ensures x in Doomed(t, user, id)
    {
      SameUser(t, id, x);
    }
  }

  // ---- The cached paths

  ghost predicate PathsOk(t: Table)
    requires Forest(t)
  {
    forall id :: id in t.rows ==> t.rows[id].fullPath == PathOf(t, id)
  }

  /** A path depends on the row and its ancestors only. */
  lemma {:induction false} PathInSub(small: Table, big: Table, id: int)
    requires Forest(small) && Forest(big) && id in small.rows
    requires forall x :: x in small.rows ==> x in big.rows && small.rows[x].name == big.rows[x].name
                                             && small.rows[x].parentId == big.rows[x].parentId
    ensures PathOf(small, id) == PathOf(big, id)
    decreases id
  {
    assert ParentOk(small, id, small.rows[id]);
    if small.rows[id].parentId != 0 {
      PathInSub(small, big, small.rows[id].parentId);
    }
  }

  lemma CreatePaths(t: Table, user: int, name: bytes, parent: int)
    requires Forest(t) && PathsOk(t) && ParentGiven(t, user, parent)
    ensures Forest(Created(t, user, name, parent)) && PathsOk(Created(t, user, name, parent))
  {
    hide LayerName, PathOf, ParentGiven;
    CreateForestIff(t, user, name, parent);
    var after := Created(t, user, name, parent);
    if !HasName(t, user, name) {
      assert t.nextId !in t.rows;
      forall id | id in t.rows
        ensures after.rows[id].fullPath == PathOf(after, id)
      {
        PathInSub(t, after, id);
      }
      NewPath(t, after, user, name, parent);
    }
  }

  lemma NewPath(t: Table, after: Table, user: int, name: bytes, parent: int)
    requires Forest(t) && Forest(after) && ParentGiven(t, user, parent) && t.nextId !in t.rows
    requires after == Inserted(t, Group(name, parent, user, LayerName(t, Group(name, parent, user, []))))
    ensures after.rows[t.nextId].fullPath == PathOf(after, t.nextId)
  {
    if parent != 0 {
      LayerNameIsPath(t, parent);
      PathInSub(t, after, parent);
    }
  }

  lemma DeletePaths(t: Table, user: int, id: int)
    requires Forest(t) && PathsOk(t)
    ensures Forest(Deleted(t, user, id)) && PathsOk(Deleted(t, user, id))
  {
    hide PathOf, Doomed;
    DeleteForest(t, user, id);
    var after := Deleted(t, user, id);
    forall x | x in after.rows
      ensures after.rows[x].fullPath == PathOf(after, x)
    {
      PathInSub(after, t, x);
    }
  }

  /** Renaming changes the paths at and below the group only. */
  lemma {:induction false} PathOutside(t: Table, id: int, newName: bytes, x: int)
    requires Forest(t) && id in t.rows && x in t.rows && !AtOrBelow(t, id, x)
    requires Forest(Renamed(t, id, newName))
    ensures PathOf(Renamed(t, id, newName), x) == PathOf(t, x)
    decreases x
  {
    hide LayerName;
    if t.rows[x].parentId != 0 {
      PathOutside(t, id, newName, t.rows[x].parentId);
    }
  }

  /** What stands in front of a group's name in its path. */
  function Prefix(t: Table, id: int): bytes
    requires Forest(t) && id in t.rows
  {
    if t.rows[id].parentId == 0 then [] else PathOf(t, t.rows[id].parentId) + SLASH
  }

  lemma RenamedRow(t: Table, id: int, newName: bytes)
    requires Forest(t) && id in t.rows && Forest(Renamed(t, id, newName))
    ensures PathOf(t, id) == Prefix(t, id) + t.rows[id].name
    ensures PathOf(Renamed(t, id, newName), id) == Prefix(t, id) + OrKeep(newName, t.rows[id].name)
    ensures Renamed(t, id, newName).rows[id].fullPath == OrKeep(Prefix(t, id) + newName, t.rows[id].fullPath)
  {
    var g := t.rows[id];
    var p := g.parentId;
    if p != 0 {
      LayerNameIsPath(t, p);
      ParentOutside(t, id);
      PathOutside(t, id, newName, p);
    } else {
      assert [] + g.name == g.name && [] + newName == newName;
      assert [] + OrKeep(newName, g.name) == OrKeep(newName, g.name);
    }
  }

  lemma ParentOutside(t: Table, id: int)
    requires Forest(t) && id in t.rows && t.rows[id].parentId != 0
    ensures !AtOrBelow(t, id, t.rows[id].parentId)
  {
    if Below(t, id, t.rows[id].parentId) {
      BelowIsYounger(t, id, t.rows[id].parentId);
    }
  }

  predicate IsLeaf(t: Table, id: int) {
    forall c :: c in t.rows ==> t.rows[c].parentId != id
  }

  /** Nothing lies below a group without children. */
  lemma LeafHasNothingBelow(t: Table, id: int, x: int)
    requires Forest(t) && IsLeaf(t, id)
    ensures !Below(t, id, x)
  {
    if Below(t, id, x) {
      var c := BelowThroughChild(t, id, x);
    }
  }

  /** The cached paths survive a rename exactly when it changes nothing, or names a group without children. */
  lemma RenamePathsIff(t: Table, id: int, newName: bytes)
    requires Forest(t) && PathsOk(t) && id in t.rows
    ensures Forest(Renamed(t, id, newName))
    ensures PathsOk(Renamed(t, id, newName))
            <==> newName == t.rows[id].name
                 || (if newName == [] then t.rows[id].parentId == 0 else IsLeaf(t, id))
  {
    RenameForest(t, id, newName);
    RenamedRow(t, id, newName);
    var g, after := t.rows[id], Renamed(t, id, newName);
    hide LayerName, PathOf, Below, Renamed;
    RenamedOthers(t, id, newName);
    if newName == g.name || (newName == [] && g.parentId == 0) {
      RenameNothing(t, id, newName);
    } else if newName == [] {
      if PathsOk(after) {
        assert after.rows[id].fullPath == PathOf(after, id);
        assert Prefix(t, id) + [] == Prefix(t, id) + g.name;
        SameTail(Prefix(t, id), [], g.name);
      }
    } else if IsLeaf(t, id) {
      forall x | x in after.rows
        ensures after.rows[x].fullPath == PathOf(after, x)
      {
        if x != id {
          LeafHasNothingBelow(t, id, x);
          PathOutside(t, id, newName, x);
        }
      }
    } else {
      var c :| c in t.rows && t.rows[c].parentId == id;
      ChildPath(t, c);
      ChildPath(after, c);
      if PathsOk(after) {
        assert after.rows[c].fullPath == PathOf(after, c);
        assert PathOf(t, id) + (SLASH + t.rows[c].name) == PathOf(after, id) + (SLASH + t.rows[c].name);
        SameHead(PathOf(t, id), PathOf(after, id), SLASH + t.rows[c].name);
        SameTail(Prefix(t, id), newName, g.name);
      }
    }
  }

  lemma RenamedOthers(t: Table, id: int, newName: bytes)
    requires Forest(t) && id in t.rows
    ensures Renamed(t, id, newName).rows.Keys == t.rows.Keys
    ensures forall x :: x in t.rows && x != id ==> Renamed(t, id, newName).rows[x] == t.rows[x]
    ensures Renamed(t, id, newName).rows[id].parentId == t.rows[id].parentId
  {
  }

  lemma RenameNothing(t: Table, id: int, newName: bytes)
    requires Forest(t) && PathsOk(t) && id in t.rows
    requires newName == t.rows[id].name || (newName == [] && t.rows[id].parentId == 0)
    ensures Renamed(t, id, newName) == t
  {
    LayerNameIsPath(t, id);
    assert t.rows[id].(name := t.rows[id].name) == t.rows[id];
    assert Renamed(t, id, newName).rows[id] == t.rows[id];
    assert Renamed(t, id, newName).rows == t.rows;
  }

  lemma ChildPath(t: Table, c: int)
    requires Forest(t) && c in t.rows && t.rows[c].parentId != 0
    ensures PathOf(t, c) == PathOf(t, t.rows[c].parentId) + (SLASH + t.rows[c].name)
  {
    Assoc(PathOf(t, t.rows[c].parentId), SLASH, t.rows[c].name);
  }

  lemma SameTail(p: bytes, a: bytes, b: bytes)
    requires p + a == p + b
    ensures a == b
  {
    assert (p + a)[|p|..] == a && (p + b)[|p|..] == b;
  }

  lemma SameHead(a: bytes, b: bytes, q: bytes)
    requires a + q == b + q
    ensures a == b
  {
    assert |a| == |b|;
    assert (a + q)[..|a|] == a && (b + q)[..|b|] == b;
  }

  // ---- Runs

  datatype Op =
    | DoCreate(user: int, name: bytes, parent: int)
    | DoRename(id: int, newName: bytes)
    | DoDelete(user: int, root: int)

  function Apply(t: Table, op: Op): Table
    requires Forest(t)
  {
    match op
    case DoCreate(user, name, parent) => Created(t, user, name, parent)
    case DoRename(id, newName) => if id in t.rows then Renamed(t, id, newName) else t
    case DoDelete(user, root) => Deleted(t, user, root)
  }

  /** The path a new group or a new name gets: the names of its ancestors, a slash behind each, and the name. */
  function PathUnder(t: Table, parent: int, name: bytes): bytes
    requires Forest(t)
  {
    if parent == 0 then name else (if parent in t.rows then PathOf(t, parent) else []) + [0x2F] + name
  }

  lemma PathUnderIs(t: Table, g: Group)
    requires Forest(t)
    ensures LayerName(t, g) == PathUnder(t, g.parentId, g.name)
  {
    if g.parentId != 0 && g.parentId in t.rows {
      LayerNameIsPath(t, g.parentId);
    }
  }

  /** Creating adds one row with the next key, unless the user has a group of that name. */
  lemma CreatedIs(t: Table, user: int, name: bytes, parent: int)
    requires Forest(t)
    ensures Apply(t, DoCreate(user, name, parent))
            == if exists id :: id in t.rows && t.rows[id].name == name && t.rows[id].userId == user then t
               else Table(t.rows[t.nextId := Group(name, parent, user, PathUnder(t, parent, name))], t.nextId + 1)
  {
    hide LayerName, PathUnder;
    PathUnderIs(t, Group(name, parent, user, []));
  }

  /** Renaming writes name and path of one row, each unless it is empty. */
  lemma RenamedIs(t: Table, id: int, newName: bytes)
    requires Forest(t)
    ensures Apply(t, DoRename(id, newName))
            == if id !in t.rows then t
               else
                 var g := t.rows[id];
                 var path := PathUnder(t, g.parentId, newName);
                 t.(rows := t.rows[id := Group(if newName == [] then g.name else newName, g.parentId, g.userId,
                                               if path == [] then g.fullPath else path)])
  {
    hide LayerName, PathUnder;
    if id in t.rows {
      PathUnderIs(t, t.rows[id].(name := newName));
    }
  }

  /** Deleting removes the user's own groups among the group and what is below it. */
  lemma DeletedIs(t: Table, user: int, root: int)
    requires Forest(t)
    ensures var after := Apply(t, DoDelete(user, root));
            after.nextId == t.nextId
            && (forall x :: x in after.rows <==>
                              x in t.rows && !(t.rows[x].userId == user && (x == root || Below(t, root, x))))
            && forall x :: x in after.rows ==> after.rows[x] == t.rows[x]
  {
    hide Below;
  }

  /** A new group is put under 0 or under a group of the same user. */
  predicate Placed(t: Table, op: Op) {
    op.DoCreate? ==> ParentGiven(t, op.user, op.parent)
  }

  /** Only groups without children get a new, non-empty name. */
  predicate LeafRename(t: Table, op: Op) {
    op.DoRename? && op.id in t.rows ==> op.newName != [] && IsLeaf(t, op.id)
  }

  lemma StepKeepsForest(t: Table, op: Op)
    requires Forest(t) && Placed(t, op)
    ensures Forest(Apply(t, op))
  {
    hide Forest, Created, Renamed, Deleted;
    match op
    case DoCreate(user, name, parent) => CreateForestIff(t, user, name, parent);
    case DoRename(id, newName) =>
      if id in t.rows {
        RenameForest(t, id, newName);
      }
    case DoDelete(user, root) => DeleteForest(t, user, root);
  }

  lemma StepKeepsPaths(t: Table, op: Op)
    requires Forest(t) && PathsOk(t) && Placed(t, op) && LeafRename(t, op)
    ensures Forest(Apply(t, op)) && PathsOk(Apply(t, op))
  {
    hide Forest, Created, Renamed, Deleted, PathsOk, IsLeaf;
    match op
    case DoCreate(user, name, parent) => CreatePaths(t, user, name, parent);
    case DoRename(id, newName) =>
      if id in t.rows {
        RenamePathsIff(t, id, newName);
      }
    case DoDelete(user, root) => DeletePaths(t, user, root);
  }

  /** The states a list of operations leads through. */
  ghost predicate IsRun(states: seq<Table>, ops: seq<Op>) {
    |states| == |ops| + 1 && Forest(states[0])
    && forall i :: 0 <= i < |ops| ==>
                     Placed(states[i], ops[i]) && (Forest(states[i]) ==> states[i + 1] == Apply(states[i], ops[i]))
  }

  /** The table is a forest in every state of every run. */
  lemma {:induction false} RunsKeepForest(states: seq<Table>, ops: seq<Op>, k: nat)
    requires IsRun(states, ops) && k <= |ops|
    ensures Forest(states[k])
  {
    hide Forest, Placed, Apply;
    if k > 0 {
      RunsKeepForest(states, ops, k - 1);
      StepKeepsForest(states[k - 1], ops[k - 1]);
    }
  }

  /** And every cached path is right as long as only groups without children are renamed. */
  lemma {:induction false} RunsKeepPaths(states: seq<Table>, ops: seq<Op>, k: nat)
    requires IsRun(states, ops) && k <= |ops| && PathsOk(states[0])
    requires forall i :: 0 <= i < |ops| ==> LeafRename(states[i], ops[i])
    ensures Forest(states[k]) && PathsOk(states[k])
  {
    hide Forest, Placed, Apply, PathsOk, LeafRename;
    if k > 0 {
      RunsKeepPaths(states, ops, k - 1);
      StepKeepsPaths(states[k - 1], ops[k - 1]);
    }
  }

  // ---- The code

  class GroupService {
    var table: Table
    var db: Db

    constructor (t: Table, mail: Db)
      ensures table == t && db == mail
    {
      table, db := t, mail;
    }

    /** CreateGroup; the key of the group that has the name afterwards. */
    method CreateGroup(user: int, name: bytes, parentId: int) returns (id: int)
      requires Forest(table)
      modifies this`table
      ensures table == Created(old(table), user, name, parentId)
      ensures id in table.rows && table.rows[id].name == name && table.rows[id].userId == user
    {
      hide LayerName;
      if HasName(table, user, name) {
        id :| id in table.rows && table.rows[id].name == name && table.rows[id].userId == user;
        return;
      }
      var group := Group(name, parentId, user, []);
      group := group.(fullPath := LayerName(table, group));
      id := table.nextId;
      table := Inserted(table, group);
    }

    /** Rename; of several groups with the old name the database picks one. */
    method Rename(user: int, oldName: bytes, newName: bytes) returns (ok: bool, id: int)
      requires Forest(table)
      modifies this`table
      ensures ok <==> HasName(old(table), user, oldName)
      ensures !ok ==> table == old(table)
      ensures ok ==> id in old(table).rows && old(table).rows[id].name == oldName
                     && old(table).rows[id].userId == user && table == Renamed(old(table), id, newName)
    {
      hide LayerName;
      id := 0;
      if !HasName(table, user, oldName) {
        return false, id;
      }
      id :| id in table.rows && table.rows[id].name == oldName && table.rows[id].userId == user;
      var group := table.rows[id].(name := newName);
      group := group.(fullPath := LayerName(table, group));
      table := table.(rows := table.rows[id := group.(name := OrKeep(newName, table.rows[id].name),
                                                      fullPath := OrKeep(group.fullPath, table.rows[id].fullPath))]);
      ok := true;
    }

    /**
     DelGroup. The session began no transaction: when the second statement fails the groups are gone already.
     Links filed in the listed groups go back to the default box, whoever owns them.
     */
    method DelGroup(user: int, groupId: int, deleteFails: bool, updateFails: bool) returns (ok: bool, deleted: bool)
      requires Forest(table)
      modifies this
      ensures ok <==> !deleteFails && !updateFails
      ensures table == if deleteFails then old(table) else Deleted(old(table), user, groupId)
      ensures db == if ok then Store.Apply(old(db), Store.DoUnfile(Doomed(old(table), user, groupId) + {groupId}))
                    else old(db)
      ensures deleted <==> ok && Doomed(old(table), user, groupId) != {}
    {
      hide Below, Store.UpdateLinks;
      var allGroupIds := GetAllChildId(table, user, groupId);
      allGroupIds := allGroupIds + [groupId];
      var ids := set x | x in allGroupIds;
      var rows := set x | x in ids && x in table.rows && table.rows[x].userId == user;
      assert rows == Doomed(table, user, groupId);
      if deleteFails {
        return false, false;
      }
      ghost var before := table;
      table := table.(rows := table.rows - rows);
      if updateFails {
        return false, false;
      }
      ListedAreDoomed(before, user, groupId);
      assert ids == Doomed(before, user, groupId) + {groupId};
      db := Store.UpdateLinks(db, Store.FiledLinks(db, ids), None, Some(0), None);
      return true, rows != {};
    }
  }

  lemma ListedAreDoomed(t: Table, user: int, id: int)
    requires Forest(t)
    ensures forall x :: Lists(t, user, id, x) ==> x in Doomed(t, user, id)
    ensures forall x :: x in Doomed(t, user, id) && x != id ==> Lists(t, user, id, x)
  {
  }

  /** After a complete deletion of an owned group nothing refers to what was removed: no group and no link. */
  lemma NothingDangles(t: Table, db: Db, user: int, id: int)
    requires Forest(t) && id in t.rows && t.rows[id].userId == user
    ensures var after := Deleted(t, user, id);
            var mail := Store.Apply(db, Store.DoUnfile(Doomed(t, user, id) + {id}));
            (forall x :: x in after.rows ==> after.rows[x].parentId !in Doomed(t, user, id))
            && (forall l :: l in mail.links ==> mail.links[l].groupId !in Doomed(t, user, id))
            && Store.Identity(mail) == Store.Identity(db)
  {
    var gone := Doomed(t, user, id);
    var mail := Store.Apply(db, Store.DoUnfile(gone + {id}));
    Store.UpdateKeeps(db, Store.FiledLinks(db, gone + {id}), None, Some(0), None);
    assert 0 !in gone;
    hide Doomed;
    forall x | x in Deleted(t, user, id).rows
      ensures Deleted(t, user, id).rows[x].parentId !in gone
    {
      if t.rows[x].parentId in gone {
        DoomedIsClosed(t, user, id, x);
      }
    }
  }

  /** When only the first statement succeeds, links are left dangling exactly when some were filed in the subtree. */
  lemma HalfDeletionIff(t: Table, db: Db, user: int, id: int)
    requires Forest(t) && id in t.rows && t.rows[id].userId == user
    requires forall l :: l in db.links ==> db.links[l].groupId == 0 || db.links[l].groupId in t.rows
    ensures (forall l :: l in db.links ==>
               db.links[l].groupId == 0 || db.links[l].groupId in Deleted(t, user, id).rows)
            <==> Store.FiledLinks(db, Doomed(t, user, id)) == {}
  {
    assert 0 !in Doomed(t, user, id);
    hide Doomed;
    if Store.FiledLinks(db, Doomed(t, user, id)) != {} {
      var l := Ids.Pick(Store.FiledLinks(db, Doomed(t, user, id)));
      assert db.links[l].groupId in Doomed(t, user, id);
    } else {
      forall l | l in db.links
        ensures db.links[l].groupId == 0 || db.links[l].groupId in Deleted(t, user, id).rows
      {
        assert l !in Store.FiledLinks(db, Doomed(t, user, id));
      }
    }
  }
}
