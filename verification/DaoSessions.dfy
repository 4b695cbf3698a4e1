/**
 The Dao-backed session storage (sa-token-core/src/distributed.rs:1120-1177): expiring sessions, a
 self-repairing index, both under the texts the key builder gives. `dsession:` and `dsession:index:`
 nest, so the session id "index:" + x names the key of login x's index.
 */
module DaoSessions {
  import opened Wrappers
  import opened Storage
  import opened Sessions
  import opened Keys

  type Key = string
  type Db = State<Key, Session>

  const INDEX := "index:"

  function SKey(c: SaKeys, id: string): Key {
    c.Global("dsession", id, None)
  }

  function IKey(c: SaKeys, loginId: string): Key {
    c.Global("dsession:index", loginId, None)
  }

  /** Which of these keys are one text, in both layouts. */
  lemma SessionKeys(c: SaKeys)
    ensures forall a, b :: SKey(c, a) == SKey(c, b) ==> a == b
    ensures forall a, b :: IKey(c, a) == IKey(c, b) ==> a == b
    ensures forall id, loginId :: SKey(c, id) == IKey(c, loginId) <==> id == INDEX + loginId
  {
    forall a, b ensures (SKey(c, a) == SKey(c, b) ==> a == b) && (IKey(c, a) == IKey(c, b) ==> a == b) {
      c.SameCategory("dsession", a, b);
      c.SameCategory("dsession:index", a, b);
    }
    forall id, loginId ensures SKey(c, id) == IKey(c, loginId) <==> id == INDEX + loginId {
      assert "dsession" + ":" + "index" == "dsession:index" && INDEX == "index" + ":";
      c.NestedGlobal("dsession", "index", id, loginId);
    }
  }

  function DaoSave(c: SaKeys, db: Db, s: Session, ttl: Option<nat>): Db {
    db.Put(SKey(c, s.id), s, ttl).Pushed(IKey(c, s.loginId), s.id, None)
  }

  function DaoDelete(c: SaKeys, db: Db, id: string): Db {
    match db.Get(SKey(c, id))
    case None => db.Without(SKey(c, id))
    case Some(s) =>
      var pulled := db.Without(SKey(c, id)).Pulled(IKey(c, s.loginId), id);
      if pulled.Members(IKey(c, s.loginId)) == [] then pulled.Without(IKey(c, s.loginId)) else pulled
  }

  /** The repair loop over the ids read at the start. */
  function Visit(c: SaKeys, db: Db, index: Key, ids: seq<string>): (Db, seq<Session>)
    decreases |ids|
  {
    if ids == [] then (db, [])
    else
      match db.Get(SKey(c, ids[0]))
      case Some(s) => var rest := Visit(c, db, index, ids[1..]); (rest.0, [s] + rest.1)
      case None => Visit(c, db.Pulled(index, ids[0]), index, ids[1..])
  }

  function DaoQuery(c: SaKeys, db: Db, loginId: string): (Db, seq<Session>) {
    Visit(c, db, IKey(c, loginId), db.Members(IKey(c, loginId)))
  }

  lemma {:induction false} VisitConcat(c: SaKeys, db: Db, index: Key, a: seq<string>, b: seq<string>)
    ensures var first := Visit(c, db, index, a);
            var second := Visit(c, first.0, index, b);
            Visit(c, db, index, a + b) == (second.0, first.1 + second.1)
    decreases |a|
  {
    if a == [] {
      assert a + b == b;
      assert [] + Visit(c, db, index, b).1 == Visit(c, db, index, b).1;
    } else {
      assert (a + b)[1..] == a[1..] + b;
      match db.Get(SKey(c, a[0]))
      case Some(s) =>
        VisitConcat(c, db, index, a[1..], b);
        var rest := Visit(c, db, index, a[1..]);
        assert ([s] + rest.1) + Visit(c, rest.0, index, b).1 == [s] + (rest.1 + Visit(c, rest.0, index, b).1);
      case None =>
        VisitConcat(c, db.Pulled(index, a[0]), index, a[1..], b);
    }
  }

  lemma VisitOne(c: SaKeys, db: Db, index: Key, id: string)
    ensures Visit(c, db, index, [id]) ==
              match db.Get(SKey(c, id)) case Some(s) => (db, [s]) case None => (db.Pulled(index, id), [])
  {
    assert [id][1..] == [];
    assert forall s: Session :: [s] + [] == [s];
  }

  class SaStorageDistributedStorage {
    const dao: Store<Key, Session>
    const keys: SaKeys

    constructor (dao: Store<Key, Session>, keys: SaKeys)
      ensures this.dao == dao && this.keys == keys
    {
      this.dao, this.keys := dao, keys;
    }

    method SaveSession(s: Session, ttl: Option<nat>)
      modifies dao
      ensures dao.View() == DaoSave(keys, old(dao.View()), s, ttl)
    {
      dao.Set(SKey(keys, s.id), s, ttl);
      var _ := dao.ListPushUnique(IKey(keys, s.loginId), s.id, None);
    }

    method GetSession(id: string) returns (r: Option<Session>)
      ensures r == dao.View().Get(SKey(keys, id))
    {
      r := dao.Get(SKey(keys, id));
    }

    method DeleteSession(id: string)
      modifies dao
      ensures dao.View() == DaoDelete(keys, old(dao.View()), id)
    {
      var found := GetSession(id);
      match found {
        case Some(s) =>
          dao.Delete(SKey(keys, id));
          var _ := dao.ListRemove(IKey(keys, s.loginId), id);
          var left := dao.ListRange(IKey(keys, s.loginId), 0, None);
          if |left| == 0 {
            dao.Delete(IKey(keys, s.loginId));
          }
        case None =>
          dao.Delete(SKey(keys, id));
      }
    }

    method GetSessionsByLoginId(loginId: string) returns (found: seq<Session>)
      modifies dao
      ensures (dao.View(), found) == DaoQuery(keys, old(dao.View()), loginId)
    {
      var index := IKey(keys, loginId);
      var ids := dao.ListRange(index, 0, None);
      found := [];
      for i := 0 to |ids|
        invariant (dao.View(), found) == Visit(keys, old(dao.View()), index, ids[..i])
      {
        VisitConcat(keys, old(dao.View()), index, ids[..i], [ids[i]]);
        VisitOne(keys, dao.View(), index, ids[i]);
        assert found + [] == found;
        assert ids[..i + 1] == ids[..i] + [ids[i]];
        var s := GetSession(ids[i]);
        match s {
          case Some(session) => found := found + [session];
          case None => var _ := dao.ListRemove(index, ids[i]);
        }
      }
      assert ids[..|ids|] == ids;
    }
  }

  // ---------- What every operation keeps, expiry included ----------

  /** The session is live under its id. */
  predicate LiveId(c: SaKeys, db: Db, id: string) {
    db.Get(SKey(c, id)).Some?
  }

  /** Session id `id` belongs to login `owner(id)` for the whole run; index lists have no expiry. */
  ghost predicate Indexed(c: SaKeys, db: Db, owner: string -> string) {
    && (forall id :: LiveId(c, db, id) ==> OwnedSession(db.Get(SKey(c, id)).value, id, owner))
    && (forall id :: LiveId(c, db, id) ==> id in db.Members(IKey(c, owner(id))))
    && (forall loginId :: Distinct(db.Members(IKey(c, loginId))))
    && (forall loginId, id :: id in db.Members(IKey(c, loginId)) ==> owner(id) == loginId)
    && Lasting(db)
  }

  predicate Lasting(db: Db) {
    forall k :: k in db.lists ==> db.lists[k].expireAt.None?
  }

  predicate OwnedSession(s: Session, id: string, owner: string -> string) {
    s.id == id && s.loginId == owner(id)
  }

  /** What a save changes in what can be read. */
  lemma SaveEffect(c: SaKeys, db: Db, s: Session, ttl: Option<nat>)
    ensures var after := DaoSave(c, db, s, ttl);
            && after.now == db.now
            && (forall id :: id != s.id ==> after.Get(SKey(c, id)) == db.Get(SKey(c, id)))
            && after.Get(SKey(c, s.id)) == (if ttl == Some(0) then None else Some(s))
            && (Lasting(db) ==> Lasting(after))
    ensures Lasting(db) ==>
              forall loginId :: DaoSave(c, db, s, ttl).Members(IKey(c, loginId)) ==
                if loginId == s.loginId && s.id !in db.Members(IKey(c, loginId)) then db.Members(IKey(c, loginId)) + [s.id]
                else db.Members(IKey(c, loginId))
  {
    SessionKeys(c);
  }

  /** A saved session is read back exactly until its time to live has passed, or for ever without one. */
  lemma SavedLasts(c: SaKeys, db: Db, s: Session, ttl: Option<nat>, ms: nat)
    ensures DaoSave(c, db, s, ttl).Later(ms).Get(SKey(c, s.id)) == if ttl.None? || ms < ttl.value then Some(s) else None
  {
  }

  lemma SaveKeepsIndexed(c: SaKeys, db: Db, s: Session, ttl: Option<nat>, owner: string -> string)
    requires Indexed(c, db, owner) && s.loginId == owner(s.id)
    ensures Indexed(c, DaoSave(c, db, s, ttl), owner)
  {
    var after := DaoSave(c, db, s, ttl);
    SaveEffect(c, db, s, ttl);
    forall loginId ensures Distinct(after.Members(IKey(c, loginId))) {
      assert Distinct(db.Members(IKey(c, loginId)));
    }
    forall id | LiveId(c, after, id)
      ensures OwnedSession(after.Get(SKey(c, id)).value, id, owner) && id in after.Members(IKey(c, owner(id)))
    {
      if id != s.id {
        assert LiveId(c, db, id);
      }
    }
  }

  // ---------- Deleting ----------

  /** Deleting `id` leaves the index of its login empty, so the index key is deleted as well. */
  predicate Empties(c: SaKeys, db: Db, id: string) {
    match db.Get(SKey(c, id))
    case None => false
    case Some(s) => id == INDEX + s.loginId || Remove(db.Members(IKey(c, s.loginId)), id) == []
  }

  /** Session `x` is live before and after deleting `id`: deleting an index key may take a session along. */
  predicate Survives(c: SaKeys, db: Db, id: string, x: string) {
    && LiveId(c, db, x) && x != id
    && !(Empties(c, db, id) && LiveId(c, db, id) && x == INDEX + db.Get(SKey(c, id)).value.loginId)
  }

  function MembersAfterDelete(c: SaKeys, db: Db, id: string, loginId: string): seq<string> {
    var members := db.Members(IKey(c, loginId));
    if id == INDEX + loginId then []
    else if LiveId(c, db, id) && db.Get(SKey(c, id)).value.loginId == loginId then Remove(members, id)
    else members
  }

  /** What a delete changes in what can be read, whatever the id. */
  lemma DeleteEffect(c: SaKeys, db: Db, id: string)
    requires Lasting(db)
    ensures var after := DaoDelete(c, db, id);
            && after.now == db.now && Lasting(after)
            && (forall x :: after.Get(SKey(c, x)) == if Survives(c, db, id, x) then db.Get(SKey(c, x)) else None)
            && (forall loginId :: after.Members(IKey(c, loginId)) == MembersAfterDelete(c, db, id, loginId))
  {
    SessionKeys(c);
  }

  /** The id names the index of a login with some other session that survives. */
  ghost predicate CutsIndex(c: SaKeys, db: Db, id: string, owner: string -> string) {
    exists x :: Survives(c, db, id, x) && id == INDEX + owner(x)
  }

  /** A session id that names no index. */
  predicate Plain(id: string) {
    !(INDEX <= id)
  }

  /** A delete keeps every live session indexed exactly when its id does not name the index of a surviving one. */
  lemma DeleteKeepsIndexedExactly(c: SaKeys, db: Db, id: string, owner: string -> string)
    requires Indexed(c, db, owner)
    ensures Indexed(c, DaoDelete(c, db, id), owner) <==> !CutsIndex(c, db, id, owner)
    ensures Plain(id) ==> !CutsIndex(c, db, id, owner)
  {
    var after := DaoDelete(c, db, id);
    DeleteEffect(c, db, id);
    forall loginId
      ensures Distinct(after.Members(IKey(c, loginId)))
      ensures forall x :: x in after.Members(IKey(c, loginId)) ==> x in db.Members(IKey(c, loginId))
    {
      assert Distinct(db.Members(IKey(c, loginId)));
      RemoveKeepsDistinct(db.Members(IKey(c, loginId)), id);
    }
    if CutsIndex(c, db, id, owner) {
      var x :| Survives(c, db, id, x) && id == INDEX + owner(x);
      assert LiveId(c, after, x) && after.Members(IKey(c, owner(x))) == [];
    } else {
      forall x | LiveId(c, after, x)
        ensures OwnedSession(after.Get(SKey(c, x)).value, x, owner) && x in after.Members(IKey(c, owner(x)))
      {
        assert Survives(c, db, id, x) && LiveId(c, db, x);
      }
    }
  }

  /** An expired session goes whose key is the index of a login with a live session. */
  ghost predicate EvictsIndex(c: SaKeys, db: Db, id: string, owner: string -> string) {
    SKey(c, id) in db.scalars && !LiveId(c, db, id) && exists x :: LiveId(c, db, x) && id == INDEX + owner(x)
  }

  lemma EvictEffect(c: SaKeys, db: Db, id: string)
    ensures var after := db.Evicted(SKey(c, id));
            && (Lasting(db) ==> Lasting(after))
            && (forall x :: after.Get(SKey(c, x)) == db.Get(SKey(c, x)))
            && (forall loginId :: after.Members(IKey(c, loginId)) ==
                  if id == INDEX + loginId && SKey(c, id) in db.scalars && !LiveId(c, db, id) then []
                  else db.Members(IKey(c, loginId)))
  {
    SessionKeys(c);
  }

  /** An eviction keeps every live session indexed exactly when its id does not name the index of one. */
  lemma EvictKeepsIndexedExactly(c: SaKeys, db: Db, id: string, owner: string -> string)
    requires Indexed(c, db, owner)
    ensures Indexed(c, db.Evicted(SKey(c, id)), owner) <==> !EvictsIndex(c, db, id, owner)
  {
    var after := db.Evicted(SKey(c, id));
    EvictEffect(c, db, id);
    if EvictsIndex(c, db, id, owner) {
      var x :| LiveId(c, db, x) && id == INDEX + owner(x);
      assert LiveId(c, after, x) && after.Members(IKey(c, owner(x))) == [];
    } else {
      forall loginId ensures Distinct(after.Members(IKey(c, loginId))) {
        assert Distinct(db.Members(IKey(c, loginId)));
      }
      forall x | LiveId(c, after, x)
        ensures OwnedSession(after.Get(SKey(c, x)).value, x, owner) && x in after.Members(IKey(c, owner(x)))
      {
        assert LiveId(c, db, x);
      }
    }
  }

  /** What the repair loop does to the store: only the index list changes, and only dead ids leave it. */
  lemma {:induction false} VisitEffect(c: SaKeys, db: Db, index: Key, ids: seq<string>)
    ensures var (after, found) := Visit(c, db, index, ids);
            && after.scalars == db.scalars && after.now == db.now
            && after.Members(index) == Purged(c, db, db.Members(index), ids)
            && after.lists.Keys == db.lists.Keys
            && (forall k :: k in db.lists && k != index ==> after.lists[k] == db.lists[k])
            && found == LiveSessions(c, db, ids)
            && (Lasting(db) ==> Lasting(after))
    decreases |ids|
  {
    if ids != [] {
      VisitEffect(c, if LiveId(c, db, ids[0]) then db else db.Pulled(index, ids[0]), index, ids[1..]);
      if !LiveId(c, db, ids[0]) {
        var next := db.Pulled(index, ids[0]);
        assert forall id :: LiveId(c, next, id) == LiveId(c, db, id);
        PurgedSame(c, next, db, next.Members(index), ids[1..]);
        SessionsSame(c, next, db, ids[1..]);
      }
    }
  }

  /** A list without the dead among `ids`. */
  function Purged(c: SaKeys, db: Db, list: seq<string>, ids: seq<string>): seq<string>
    decreases |ids|
  {
    if ids == [] then list
    else Purged(c, db, if LiveId(c, db, ids[0]) then list else Remove(list, ids[0]), ids[1..])
  }

  function LiveSessions(c: SaKeys, db: Db, ids: seq<string>): seq<Session> {
    if ids == [] then []
    else if LiveId(c, db, ids[0]) then [db.Get(SKey(c, ids[0])).value] + LiveSessions(c, db, ids[1..])
    else LiveSessions(c, db, ids[1..])
  }

  function LiveIds(c: SaKeys, db: Db, ids: seq<string>): seq<string> {
    if ids == [] then []
    else if LiveId(c, db, ids[0]) then [ids[0]] + LiveIds(c, db, ids[1..])
    else LiveIds(c, db, ids[1..])
  }

  lemma {:induction false} PurgedSame(c: SaKeys, a: Db, b: Db, list: seq<string>, ids: seq<string>)
    requires a.scalars == b.scalars && a.now == b.now
    ensures Purged(c, a, list, ids) == Purged(c, b, list, ids)
    decreases |ids|
  {
    if ids != [] {
      PurgedSame(c, a, b, if LiveId(c, a, ids[0]) then list else Remove(list, ids[0]), ids[1..]);
    }
  }

  lemma {:induction false} SessionsSame(c: SaKeys, a: Db, b: Db, ids: seq<string>)
    requires a.scalars == b.scalars && a.now == b.now
    ensures LiveSessions(c, a, ids) == LiveSessions(c, b, ids)
  {
    if ids != [] {
      SessionsSame(c, a, b, ids[1..]);
    }
  }

  lemma {:induction false} PurgedConcat(c: SaKeys, db: Db, a: seq<string>, b: seq<string>, ids: seq<string>)
    ensures Purged(c, db, a + b, ids) == Purged(c, db, a, ids) + Purged(c, db, b, ids)
    decreases |ids|
  {
    if ids != [] {
      RemoveConcat(a, b, ids[0]);
      if LiveId(c, db, ids[0]) {
        PurgedConcat(c, db, a, b, ids[1..]);
      } else {
        PurgedConcat(c, db, Remove(a, ids[0]), Remove(b, ids[0]), ids[1..]);
      }
    }
  }

  lemma {:induction false} PurgedSingle(c: SaKeys, db: Db, id: string, ids: seq<string>)
    ensures Purged(c, db, [id], ids) == if id in ids && !LiveId(c, db, id) then [] else [id]
    decreases |ids|
  {
    if ids != [] {
      assert Remove([id], ids[0]) == if id == ids[0] then [] else [id];
      if ids[0] == id && !LiveId(c, db, id) {
        PurgedNothing(c, db, ids[1..]);
      } else {
        PurgedSingle(c, db, id, ids[1..]);
      }
    }
  }

  lemma {:induction false} PurgedNothing(c: SaKeys, db: Db, ids: seq<string>)
    ensures Purged(c, db, [], ids) == []
    decreases |ids|
  {
    if ids != [] {
      PurgedNothing(c, db, ids[1..]);
    }
  }

  /** Purging a list of its own dead members leaves its live ones, in order. */
  lemma {:induction false} PurgedIsLive(c: SaKeys, db: Db, list: seq<string>, ids: seq<string>)
    requires forall x :: x in list ==> x in ids
    ensures Purged(c, db, list, ids) == LiveIds(c, db, list)
  {
    if list == [] {
      PurgedNothing(c, db, ids);
    } else {
      assert list == [list[0]] + list[1..];
      assert list[0] in list;
      PurgedConcat(c, db, [list[0]], list[1..], ids);
      PurgedSingle(c, db, list[0], ids);
      PurgedIsLive(c, db, list[1..], ids);
    }
  }

  lemma {:induction false} LiveIdsMembers(c: SaKeys, db: Db, ids: seq<string>)
    requires Distinct(ids)
    ensures Distinct(LiveIds(c, db, ids))
    ensures forall id :: id in LiveIds(c, db, ids) <==> id in ids && LiveId(c, db, id)
  {
    if ids != [] {
      LiveIdsMembers(c, db, ids[1..]);
      var rest := LiveIds(c, db, ids[1..]);
      assert ids[0] !in ids[1..];
      assert forall i :: 0 <= i < |rest| ==> rest[i] in rest;
    }
  }

  lemma {:induction false} SessionsAreLive(c: SaKeys, db: Db, ids: seq<string>, owner: string -> string)
    requires Indexed(c, db, owner)
    ensures Ids(LiveSessions(c, db, ids)) == LiveIds(c, db, ids)
    ensures forall s :: s in LiveSessions(c, db, ids) <==> exists id :: id in ids && db.Get(SKey(c, id)) == Some(s)
  {
    if ids != [] {
      SessionsAreLive(c, db, ids[1..], owner);
      if LiveId(c, db, ids[0]) {
        var s := db.Get(SKey(c, ids[0])).value;
        assert OwnedSession(s, ids[0], owner);
        IdsConcat([s], LiveSessions(c, db, ids[1..]));
      }
    }
  }

  /**
   With expiry, the per-login query returns exactly the live sessions of the login, each once, leaves
   the index equal to that list, and touches no other list.
   */
  lemma QueryReturnsLive(c: SaKeys, db: Db, loginId: string, owner: string -> string)
    requires Indexed(c, db, owner)
    ensures var (after, found) := DaoQuery(c, db, loginId);
            && (forall s :: s in found <==> db.Get(SKey(c, s.id)) == Some(s) && s.loginId == loginId)
            && UniqueIds(found)
            && after.Members(IKey(c, loginId)) == Ids(found)
            && after.scalars == db.scalars && after.now == db.now
            && after.lists.Keys == db.lists.Keys
            && (forall k :: k in db.lists && k != IKey(c, loginId) ==> after.lists[k] == db.lists[k])
            && Indexed(c, after, owner)
  {
    var ids := db.Members(IKey(c, loginId));
    var (after, found) := DaoQuery(c, db, loginId);
    VisitEffect(c, db, IKey(c, loginId), ids);
    PurgedIsLive(c, db, ids, ids);
    assert Distinct(ids);
    LiveIdsMembers(c, db, ids);
    SessionsAreLive(c, db, ids, owner);
    assert Ids(found) == LiveIds(c, db, ids);
    assert forall i :: 0 <= i < |found| ==> Ids(found)[i] == found[i].id;
    forall s ensures s in found <==> db.Get(SKey(c, s.id)) == Some(s) && s.loginId == loginId {
      if s in found {
        var id :| id in ids && db.Get(SKey(c, id)) == Some(s);
        assert OwnedSession(s, id, owner);
      }
      if db.Get(SKey(c, s.id)) == Some(s) && s.loginId == loginId {
        assert LiveId(c, db, s.id) && OwnedSession(s, s.id, owner);
        assert s.id in ids;
      }
    }
    RepairKeepsIndexed(c, db, after, loginId, owner);
  }

  lemma RepairKeepsIndexed(c: SaKeys, db: Db, after: Db, loginId: string, owner: string -> string)
    requires Indexed(c, db, owner) && after.scalars == db.scalars && after.now == db.now && Lasting(after)
    requires after.lists.Keys == db.lists.Keys
    requires forall k :: k in db.lists && k != IKey(c, loginId) ==> after.lists[k] == db.lists[k]
    requires after.Members(IKey(c, loginId)) == LiveIds(c, db, db.Members(IKey(c, loginId)))
    ensures Indexed(c, after, owner)
  {
    assert Distinct(db.Members(IKey(c, loginId)));
    LiveIdsMembers(c, db, db.Members(IKey(c, loginId)));
    forall l ensures Distinct(after.Members(IKey(c, l)))
      ensures forall x :: x in after.Members(IKey(c, l)) ==> x in db.Members(IKey(c, l))
      ensures forall x :: x in db.Members(IKey(c, l)) && LiveId(c, db, x) ==> x in after.Members(IKey(c, l))
    {
      assert Distinct(db.Members(IKey(c, l)));
    }
    forall id | LiveId(c, after, id)
      ensures OwnedSession(after.Get(SKey(c, id)).value, id, owner) && id in after.Members(IKey(c, owner(id)))
    {
      assert LiveId(c, db, id);
    }
  }

  lemma ElapseKeepsIndexed(c: SaKeys, db: Db, ms: nat, owner: string -> string)
    requires Indexed(c, db, owner)
    ensures Indexed(c, db.Later(ms), owner)
  {
    var after := db.Later(ms);
    forall id | LiveId(c, after, id)
      ensures OwnedSession(after.Get(SKey(c, id)).value, id, owner) && id in after.Members(IKey(c, owner(id)))
    {
      assert LiveId(c, db, id);
    }
    forall loginId ensures Distinct(after.Members(IKey(c, loginId))) {
      assert Distinct(db.Members(IKey(c, loginId)));
    }
  }

  // ---------- Without the binding ----------

  /**
   A save leaves some binding of session ids to logins that the store respects exactly when no other
   login's index lists the id, whether or not that session is still live.
   */
  lemma RebindExactly(c: SaKeys, db: Db, s: Session, ttl: Option<nat>, owner: string -> string)
    requires Indexed(c, db, owner)
    ensures (exists o :: Indexed(c, DaoSave(c, db, s, ttl), o)) <==>
            forall loginId :: s.id in db.Members(IKey(c, loginId)) ==> loginId == s.loginId
  {
    var after := DaoSave(c, db, s, ttl);
    SaveEffect(c, db, s, ttl);
    if forall loginId :: s.id in db.Members(IKey(c, loginId)) ==> loginId == s.loginId {
      var o := x => if x == s.id then s.loginId else owner(x);
      RebindKeepsIndexed(c, db, s, ttl, owner, o);
    } else {
      var loginId :| s.id in db.Members(IKey(c, loginId)) && loginId != s.loginId;
      assert s.id in after.Members(IKey(c, loginId)) && s.id in after.Members(IKey(c, s.loginId));
      forall o ensures !Indexed(c, after, o) {
        assert Indexed(c, after, o) ==> o(s.id) == loginId;
        assert Indexed(c, after, o) ==> o(s.id) == s.loginId;
      }
    }
  }

  lemma RebindKeepsIndexed(c: SaKeys, db: Db, s: Session, ttl: Option<nat>, owner: string -> string, o: string -> string)
    requires Indexed(c, db, owner)
    requires forall loginId :: s.id in db.Members(IKey(c, loginId)) ==> loginId == s.loginId
    requires o(s.id) == s.loginId && forall x :: x != s.id ==> o(x) == owner(x)
    ensures Indexed(c, DaoSave(c, db, s, ttl), o)
  {
    var after := DaoSave(c, db, s, ttl);
    SaveEffect(c, db, s, ttl);
    forall loginId ensures Distinct(after.Members(IKey(c, loginId))) {
      assert Distinct(db.Members(IKey(c, loginId)));
    }
    forall id | LiveId(c, after, id)
      ensures OwnedSession(after.Get(SKey(c, id)).value, id, o) && id in after.Members(IKey(c, o(id)))
    {
      if id != s.id {
        assert LiveId(c, db, id);
      }
    }
  }

  lemma {:induction false} VisitFindsLive(c: SaKeys, db: Db, index: Key, ids: seq<string>, id: string)
    requires id in ids && LiveId(c, db, id)
    ensures db.Get(SKey(c, id)).value in Visit(c, db, index, ids).1
    decreases |ids|
  {
    if ids[0] != id {
      VisitFindsLive(c, if LiveId(c, db, ids[0]) then db else db.Pulled(index, ids[0]), index, ids[1..], id);
    }
  }

  /** When another login's index does list the id, that login's query returns the session too. */
  lemma RebindingMisleadsQuery(c: SaKeys, db: Db, s: Session, ttl: Option<nat>, former: string)
    requires Lasting(db) && s.id in db.Members(IKey(c, former)) && former != s.loginId && ttl != Some(0)
    ensures s in DaoQuery(c, DaoSave(c, db, s, ttl), former).1
  {
    var after := DaoSave(c, db, s, ttl);
    SaveEffect(c, db, s, ttl);
    VisitFindsLive(c, after, IKey(c, former), after.Members(IKey(c, former)), s.id);
  }
}
