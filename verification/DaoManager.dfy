/**
 The session manager's writes (sa-token-core/src/distributed.rs:682-741, 872-894) over the Dao-backed
 storage, expiry included. `MemorySessions` has the same manager over the in-memory storage.
 */
module DaoManager {
  import opened Wrappers
  import opened Storage
  import opened Keys
  import opened Sessions
  import opened DaoSessions
  import MemorySessions
  import ConstantTime

  function DaoDeleteEach(c: SaKeys, db: Db, ids: seq<string>): Db
    decreases |ids|
  {
    if ids == [] then db else DaoDeleteEach(c, DaoDelete(c, db, ids[0]), ids[1..])
  }

  lemma {:induction false} DaoDeleteOneMore(c: SaKeys, db: Db, ids: seq<string>, id: string)
    ensures DaoDeleteEach(c, db, ids + [id]) == DaoDelete(c, DaoDeleteEach(c, db, ids), id)
    decreases |ids|
  {
    if ids == [] {
      assert ids + [id] == [id] && [id][1..] == [];
    } else {
      DaoDeleteOneMore(c, DaoDelete(c, db, ids[0]), ids[1..], id);
      assert (ids + [id])[1..] == ids[1..] + [id];
    }
  }

  /** What is left of session `x` when the sessions of the login (that carry the token) are gone. */
  function Kept(c: SaKeys, db: Db, x: string, loginId: string, token: Option<string>): Option<Session> {
    match db.Get(SKey(c, x))
    case Some(s) => if Named(s, loginId, token) then None else Some(s)
    case None => None
  }

  /** Exactly the named sessions are gone, and every live session is still indexed. */
  ghost predicate OnlyNamedGone(c: SaKeys, before: Db, after: Db, loginId: string, token: Option<string>, owner: string -> string) {
    && Indexed(c, after, owner)
    && forall x :: after.Get(SKey(c, x)) == Kept(c, before, x, loginId, token)
  }

  /** What is kept of a session, in terms of its own login and token. */
  lemma KeptExactly(c: SaKeys, db: Db, x: string, loginId: string, token: Option<string>)
    ensures var s := db.Get(SKey(c, x));
            Kept(c, db, x, loginId, token) ==
              if s.Some? && s.value.loginId == loginId && (token.None? || s.value.token == token.value) then None else s
  {
  }

  // ---------- What deleting several sessions of one login does ----------

  /** The sessions `ids` of a login are live; where one of them names the login's own index, it lists them all. */
  ghost predicate Deletable(c: SaKeys, db: Db, loginId: string, ids: seq<string>) {
    && Lasting(db) && Distinct(ids)
    && (forall id :: id in ids ==> LiveId(c, db, id) && db.Get(SKey(c, id)).value.loginId == loginId)
    && (INDEX + loginId in ids ==> forall id :: id in ids ==> id in db.Members(IKey(c, loginId)))
  }

  ghost predicate EachEffect(c: SaKeys, db: Db, loginId: string, ids: seq<string>, after: Db) {
    && Lasting(after)
    && (forall x :: after.Get(SKey(c, x)) ==
          if x in ids || (x == INDEX + loginId && ids != [] && RemoveAll(db.Members(IKey(c, loginId)), ids) == []) then None
          else db.Get(SKey(c, x)))
    && (forall l :: after.Members(IKey(c, l)) ==
          if INDEX + l in ids then [] else if l == loginId then RemoveAll(db.Members(IKey(c, l)), ids) else db.Members(IKey(c, l)))
  }

  lemma {:induction false} RemoveAllNothing(xs: seq<string>)
    ensures RemoveAll([], xs) == []
    decreases |xs|
  {
    if xs != [] {
      RemoveAllNothing(xs[1..]);
    }
  }

  lemma RestDeletable(c: SaKeys, db: Db, loginId: string, ids: seq<string>)
    requires ids != [] && Deletable(c, db, loginId, ids)
    ensures Deletable(c, DaoDelete(c, db, ids[0]), loginId, ids[1..])
  {
    var next, rest := DaoDelete(c, db, ids[0]), ids[1..];
    DeleteEffect(c, db, ids[0]);
    assert forall id :: id in ids <==> id == ids[0] || id in rest;
    assert ids[0] !in rest;
    forall id | id in rest ensures Survives(c, db, ids[0], id) {
      if id == INDEX + loginId {
        assert id in Remove(db.Members(IKey(c, loginId)), ids[0]);
      }
    }
    if INDEX + loginId in rest {
      forall id | id in rest ensures id in next.Members(IKey(c, loginId)) {
        assert id in db.Members(IKey(c, loginId));
      }
    }
  }

  lemma {:induction false} DeleteEachEffect(c: SaKeys, db: Db, loginId: string, ids: seq<string>)
    requires Deletable(c, db, loginId, ids)
    ensures EachEffect(c, db, loginId, ids, DaoDeleteEach(c, db, ids))
    decreases |ids|
  {
    if ids != [] {
      var next, rest := DaoDelete(c, db, ids[0]), ids[1..];
      DeleteEffect(c, db, ids[0]);
      RestDeletable(c, db, loginId, ids);
      DeleteEachEffect(c, next, loginId, rest);
      EffectsCompose(c, db, loginId, ids, next, DaoDeleteEach(c, next, rest));
    }
  }

  lemma EffectsCompose(c: SaKeys, db: Db, loginId: string, ids: seq<string>, next: Db, after: Db)
    requires ids != [] && Deletable(c, db, loginId, ids) && next == DaoDelete(c, db, ids[0])
    requires EachEffect(c, next, loginId, ids[1..], after)
    ensures EachEffect(c, db, loginId, ids, after)
  {
    var rest := ids[1..];
    DeleteEffect(c, db, ids[0]);
    RemoveAllNothing(rest);
    assert forall id :: id in ids <==> id == ids[0] || id in rest;
  }

  // ---------- When a bulk delete does what it says ----------

  /** The session is live and one of those the bulk delete names. */
  predicate NamedLive(c: SaKeys, db: Db, loginId: string, token: Option<string>, id: string) {
    LiveId(c, db, id) && Named(db.Get(SKey(c, id)).value, loginId, token)
  }

  /** A named session's id names the index of a live session that is not named. */
  ghost predicate BulkCuts(c: SaKeys, db: Db, loginId: string, token: Option<string>, owner: string -> string) {
    exists x :: LiveId(c, db, x) && !NamedLive(c, db, loginId, token, x) && NamedLive(c, db, loginId, token, INDEX + owner(x))
  }

  /** All sessions of the login are named, and the key of its index keeps a live session that is not. */
  ghost predicate BulkTakes(c: SaKeys, db: Db, loginId: string, token: Option<string>, owner: string -> string) {
    && LiveId(c, db, INDEX + loginId) && !NamedLive(c, db, loginId, token, INDEX + loginId)
    && (exists y :: NamedLive(c, db, loginId, token, y))
    && (forall y :: LiveId(c, db, y) && owner(y) == loginId ==> NamedLive(c, db, loginId, token, y))
  }

  lemma {:induction false} ChosenDistinct(found: seq<Session>, token: Option<string>)
    requires UniqueIds(found)
    ensures Distinct(MemorySessions.Chosen(found, token))
    ensures forall id :: id in MemorySessions.Chosen(found, token) ==> id in Ids(found)
  {
    if found != [] {
      ChosenDistinct(found[1..], token);
      var rest := MemorySessions.Chosen(found[1..], token);
      assert forall i :: 0 <= i < |rest| ==> rest[i] in rest;
      assert forall id :: id in Ids(found[1..]) ==> exists i :: 0 < i < |found| && found[i].id == id;
      assert forall i :: 0 < i < |found| ==> found[i].id == Ids(found)[i];
      assert found[0].id == Ids(found)[0];
    }
  }

  /** The repaired index lists exactly the live sessions of the login. */
  lemma FoundExactly(c: SaKeys, db: Db, loginId: string, owner: string -> string)
    requires Indexed(c, db, owner)
    ensures var (queried, found) := DaoQuery(c, db, loginId);
            && (forall id :: LiveId(c, queried, id) == LiveId(c, db, id))
            && (forall id :: id in Ids(found) <==> LiveId(c, db, id) && owner(id) == loginId)
  {
    var (queried, found) := DaoQuery(c, db, loginId);
    QueryReturnsLive(c, db, loginId, owner);
    assert forall id :: LiveId(c, queried, id) == LiveId(c, db, id);
  }

  /** What the loop deletes: the named live sessions, each once, all of them listed by the repaired index. */
  lemma ChosenExactly(c: SaKeys, db: Db, loginId: string, token: Option<string>, owner: string -> string)
    requires Indexed(c, db, owner)
    ensures var (queried, found) := DaoQuery(c, db, loginId);
            var ids := MemorySessions.Chosen(found, token);
            && Deletable(c, queried, loginId, ids)
            && (forall id :: id in ids <==> NamedLive(c, db, loginId, token, id))
  {
    var (queried, found) := DaoQuery(c, db, loginId);
    var ids := MemorySessions.Chosen(found, token);
    QueryReturnsLive(c, db, loginId, owner);
    MemorySessions.ChosenIsNamed(found, loginId, token);
    ChosenDistinct(found, token);
    forall id ensures id in ids <==> NamedLive(c, db, loginId, token, id) {
      NamedIdsMembers(found, loginId, token, id);
      if LiveId(c, db, id) {
        assert OwnedSession(db.Get(SKey(c, id)).value, id, owner);
      }
    }
  }

  /** What the bulk delete starts from and ends in, as `ChosenExactly` and `DeleteEachEffect` say. */
  ghost predicate BulkStep(c: SaKeys, db: Db, queried: Db, all: seq<string>, ids: seq<string>, after: Db, loginId: string,
                           token: Option<string>, owner: string -> string)
  {
    && Indexed(c, db, owner) && Indexed(c, queried, owner) && queried.scalars == db.scalars && queried.now == db.now
    && queried.Members(IKey(c, loginId)) == all && EachEffect(c, queried, loginId, ids, after)
    && (forall id :: id in ids <==> NamedLive(c, db, loginId, token, id))
    && (forall id :: id in all <==> LiveId(c, db, id) && owner(id) == loginId)
  }

  lemma TakingFails(c: SaKeys, db: Db, queried: Db, all: seq<string>, ids: seq<string>, after: Db, loginId: string,
                    token: Option<string>, owner: string -> string)
    requires EachEffect(c, queried, loginId, ids, after) && queried.Members(IKey(c, loginId)) == all
    requires forall id :: id in ids <==> NamedLive(c, db, loginId, token, id)
    requires forall id :: id in all ==> LiveId(c, db, id) && owner(id) == loginId
    requires BulkTakes(c, db, loginId, token, owner)
    ensures !OnlyNamedGone(c, db, after, loginId, token, owner)
  {
    var y :| NamedLive(c, db, loginId, token, y);
    assert y in ids;
    var left := RemoveAll(all, ids);
    assert |left| > 0 ==> left[0] in left;
    RemoveAllMembers(all, ids);
    forall x ensures x !in left {
      assert x in all ==> NamedLive(c, db, loginId, token, x);
    }
    assert after.Get(SKey(c, INDEX + loginId)) == None;
  }

  lemma EmptyIndexListsNone(c: SaKeys, db: Db, x: string, owner: string -> string)
    requires Indexed(c, db, owner) && db.Members(IKey(c, owner(x))) == []
    ensures !LiveId(c, db, x)
  {
  }

  lemma CuttingFails(c: SaKeys, db: Db, after: Db, loginId: string, token: Option<string>, owner: string -> string, x: string)
    requires LiveId(c, db, x) && !NamedLive(c, db, loginId, token, x) && after.Members(IKey(c, owner(x))) == []
    ensures !OnlyNamedGone(c, db, after, loginId, token, owner)
  {
    if OnlyNamedGone(c, db, after, loginId, token, owner) {
      EmptyIndexListsNone(c, after, x, owner);
    }
  }

  lemma BulkCutFails(c: SaKeys, db: Db, queried: Db, ids: seq<string>, after: Db, loginId: string,
                     token: Option<string>, owner: string -> string)
    requires EachEffect(c, queried, loginId, ids, after) && BulkCuts(c, db, loginId, token, owner)
    requires forall id :: id in ids <==> NamedLive(c, db, loginId, token, id)
    ensures !OnlyNamedGone(c, db, after, loginId, token, owner)
  {
    var x :| LiveId(c, db, x) && !NamedLive(c, db, loginId, token, x) && NamedLive(c, db, loginId, token, INDEX + owner(x));
    assert INDEX + owner(x) in ids;
    CuttingFails(c, db, after, loginId, token, owner, x);
  }

  lemma NoTakingKeeps(c: SaKeys, db: Db, queried: Db, all: seq<string>, ids: seq<string>, after: Db, loginId: string,
                       token: Option<string>, owner: string -> string)
    requires BulkStep(c, db, queried, all, ids, after, loginId, token, owner)
    requires !BulkTakes(c, db, loginId, token, owner)
    ensures forall x :: after.Get(SKey(c, x)) == Kept(c, db, x, loginId, token)
  {
    RemoveAllMembers(all, ids);
    assert forall x :: queried.Get(SKey(c, x)) == db.Get(SKey(c, x));
    forall x ensures after.Get(SKey(c, x)) == Kept(c, db, x, loginId, token) {
      assert x in ids <==> NamedLive(c, db, loginId, token, x);
      if x == INDEX + loginId && ids != [] && RemoveAll(all, ids) == [] && x !in ids {
        assert ids[0] in ids && NamedLive(c, db, loginId, token, ids[0]);
        forall y | LiveId(c, db, y) && owner(y) == loginId ensures NamedLive(c, db, loginId, token, y) {
          assert y in all;
        }
      }
    }
  }

  lemma NeitherIsExact(c: SaKeys, db: Db, queried: Db, all: seq<string>, ids: seq<string>, after: Db, loginId: string,
                       token: Option<string>, owner: string -> string)
    requires BulkStep(c, db, queried, all, ids, after, loginId, token, owner)
    requires !BulkCuts(c, db, loginId, token, owner) && !BulkTakes(c, db, loginId, token, owner)
    ensures OnlyNamedGone(c, db, after, loginId, token, owner)
  {
    NoTakingKeeps(c, db, queried, all, ids, after, loginId, token, owner);
    RemoveAllMembers(all, ids);
    forall l ensures Distinct(after.Members(IKey(c, l))) {
      assert Distinct(queried.Members(IKey(c, l)));
      RemoveAllKeepsDistinct(queried.Members(IKey(c, l)), ids);
    }
    forall x | LiveId(c, after, x)
      ensures OwnedSession(after.Get(SKey(c, x)).value, x, owner) && x in after.Members(IKey(c, owner(x)))
    {
      assert LiveId(c, db, x) && !NamedLive(c, db, loginId, token, x) && LiveId(c, queried, x);
      assert INDEX + owner(x) !in ids;
    }
  }

  lemma BulkIsStep(c: SaKeys, db: Db, loginId: string, token: Option<string>, owner: string -> string)
    requires Indexed(c, db, owner)
    ensures var (queried, found) := DaoQuery(c, db, loginId);
            var ids := MemorySessions.Chosen(found, token);
            BulkStep(c, db, queried, Ids(found), ids, DaoDeleteEach(c, queried, ids), loginId, token, owner)
  {
    var (queried, found) := DaoQuery(c, db, loginId);
    QueryReturnsLive(c, db, loginId, owner);
    FoundExactly(c, db, loginId, owner);
    ChosenExactly(c, db, loginId, token, owner);
    DeleteEachEffect(c, queried, loginId, MemorySessions.Chosen(found, token));
  }

  lemma StepExactly(c: SaKeys, db: Db, queried: Db, all: seq<string>, ids: seq<string>, after: Db, loginId: string,
                    token: Option<string>, owner: string -> string)
    requires BulkStep(c, db, queried, all, ids, after, loginId, token, owner)
    ensures OnlyNamedGone(c, db, after, loginId, token, owner)
            <==> !BulkCuts(c, db, loginId, token, owner) && !BulkTakes(c, db, loginId, token, owner)
  {
    if BulkTakes(c, db, loginId, token, owner) {
      TakingFails(c, db, queried, all, ids, after, loginId, token, owner);
    } else if BulkCuts(c, db, loginId, token, owner) {
      BulkCutFails(c, db, queried, ids, after, loginId, token, owner);
    } else {
      NeitherIsExact(c, db, queried, all, ids, after, loginId, token, owner);
    }
  }

  /** The bulk delete removes exactly the named sessions and loses no index exactly when it neither cuts nor takes. */
  lemma BulkDeleteExactly(c: SaKeys, db: Db, loginId: string, token: Option<string>, owner: string -> string)
    requires Indexed(c, db, owner)
    ensures var (queried, found) := DaoQuery(c, db, loginId);
            OnlyNamedGone(c, db, DaoDeleteEach(c, queried, MemorySessions.Chosen(found, token)), loginId, token, owner)
            <==> !BulkCuts(c, db, loginId, token, owner) && !BulkTakes(c, db, loginId, token, owner)
  {
    var (queried, found) := DaoQuery(c, db, loginId);
    var ids := MemorySessions.Chosen(found, token);
    BulkIsStep(c, db, loginId, token, owner);
    StepExactly(c, db, queried, Ids(found), ids, DaoDeleteEach(c, queried, ids), loginId, token, owner);
  }

  /** No live session's id names an index. */
  ghost predicate PlainLive(c: SaKeys, db: Db) {
    forall id :: LiveId(c, db, id) ==> Plain(id)
  }

  lemma PlainIsExact(c: SaKeys, db: Db, loginId: string, token: Option<string>, owner: string -> string)
    requires PlainLive(c, db)
    ensures !BulkCuts(c, db, loginId, token, owner) && !BulkTakes(c, db, loginId, token, owner)
  {
  }

  class DaoSessionManager {
    const storage: SaStorageDistributedStorage
    const serviceId: string
    const sessionTimeout: nat

    constructor (storage: SaStorageDistributedStorage, serviceId: string, sessionTimeout: nat)
      ensures this.storage == storage && this.serviceId == serviceId && this.sessionTimeout == sessionTimeout
    {
      this.storage, this.serviceId, this.sessionTimeout := storage, serviceId, sessionTimeout;
    }

    /** The new session is read back exactly until the session timeout, and listed under its login. */
    method CreateSession(loginId: string, token: string, uuid: string, now: int) returns (s: Session)
      modifies storage.dao
      ensures s == Session(uuid, loginId, token, serviceId, now, now, map[])
      ensures forall ms: nat :: storage.dao.View().Later(ms).Get(SKey(storage.keys, uuid)) ==
                if ms < sessionTimeout then Some(s) else None
      ensures forall owner :: Indexed(storage.keys, old(storage.dao.View()), owner) && owner(uuid) == loginId ==>
                Indexed(storage.keys, storage.dao.View(), owner) && uuid in storage.dao.View().Members(IKey(storage.keys, loginId))
    {
      s := Session(uuid, loginId, token, serviceId, now, now, map[]);
      UpdateSession(s);
    }

    /** The session is replaced and lives for the session timeout from now. */
    method UpdateSession(s: Session)
      modifies storage.dao
      ensures storage.dao.View() == DaoSave(storage.keys, old(storage.dao.View()), s, Some(sessionTimeout))
      ensures forall ms: nat :: storage.dao.View().Later(ms).Get(SKey(storage.keys, s.id)) ==
                if ms < sessionTimeout then Some(s) else None
      ensures forall owner :: Indexed(storage.keys, old(storage.dao.View()), owner) && owner(s.id) == s.loginId ==>
                Indexed(storage.keys, storage.dao.View(), owner) && s.id in storage.dao.View().Members(IKey(storage.keys, s.loginId))
    {
      ghost var c, before := storage.keys, storage.dao.View();
      storage.SaveSession(s, Some(sessionTimeout));
      forall ms: nat ensures storage.dao.View().Later(ms).Get(SKey(c, s.id)) == if ms < sessionTimeout then Some(s) else None {
        SavedLasts(c, before, s, Some(sessionTimeout), ms);
      }
      forall owner | Indexed(c, before, owner) && owner(s.id) == s.loginId
        ensures Indexed(c, storage.dao.View(), owner) && s.id in storage.dao.View().Members(IKey(c, s.loginId))
      {
        SaveKeepsIndexed(c, before, s, Some(sessionTimeout), owner);
        SaveEffect(c, before, s, Some(sessionTimeout));
      }
    }

    /** Removes exactly the live sessions of the login, and loses no index, exactly when it neither cuts nor takes. */
    method DeleteAllSessions(loginId: string)
      modifies storage.dao
      ensures forall owner :: Indexed(storage.keys, old(storage.dao.View()), owner) ==>
                (OnlyNamedGone(storage.keys, old(storage.dao.View()), storage.dao.View(), loginId, None, owner) <==>
                   !BulkCuts(storage.keys, old(storage.dao.View()), loginId, None, owner)
                   && !BulkTakes(storage.keys, old(storage.dao.View()), loginId, None, owner))
    {
      DeleteNamed(loginId, None);
    }

    /** The same for those that carry `token`. */
    method DeleteSessionsByToken(loginId: string, token: string)
      modifies storage.dao
      ensures forall owner :: Indexed(storage.keys, old(storage.dao.View()), owner) ==>
                (OnlyNamedGone(storage.keys, old(storage.dao.View()), storage.dao.View(), loginId, Some(token), owner) <==>
                   !BulkCuts(storage.keys, old(storage.dao.View()), loginId, Some(token), owner)
                   && !BulkTakes(storage.keys, old(storage.dao.View()), loginId, Some(token), owner))
    {
      DeleteNamed(loginId, Some(token));
    }

    /** Both loops. */
    method DeleteNamed(loginId: string, token: Option<string>)
      modifies storage.dao
      ensures var (queried, found) := DaoQuery(storage.keys, old(storage.dao.View()), loginId);
              storage.dao.View() == DaoDeleteEach(storage.keys, queried, MemorySessions.Chosen(found, token))
      ensures forall owner :: Indexed(storage.keys, old(storage.dao.View()), owner) ==>
                (OnlyNamedGone(storage.keys, old(storage.dao.View()), storage.dao.View(), loginId, token, owner) <==>
                   !BulkCuts(storage.keys, old(storage.dao.View()), loginId, token, owner)
                   && !BulkTakes(storage.keys, old(storage.dao.View()), loginId, token, owner))
    {
      ghost var c, start := storage.keys, storage.dao.View();
      var found := storage.GetSessionsByLoginId(loginId);
      ghost var queried := storage.dao.View();
      ghost var deleted: seq<string> := [];
      for i := 0 to |found|
        invariant storage.dao.View() == DaoDeleteEach(c, queried, deleted)
        invariant deleted == MemorySessions.Chosen(found[..i], token)
      {
        var chosen := true;
        if token.Some? {
          chosen := ConstantTime.SameText(found[i].token, token.value);
        }
        MemorySessions.ChosenConcat(found[..i], found[i], token);
        assert found[..i + 1] == found[..i] + [found[i]];
        if chosen {
          DaoDeleteOneMore(c, queried, deleted, found[i].id);
          storage.DeleteSession(found[i].id);
          deleted := deleted + [found[i].id];
        }
      }
      assert found[..|found|] == found;
      forall owner | Indexed(c, start, owner)
        ensures OnlyNamedGone(c, start, storage.dao.View(), loginId, token, owner) <==>
                !BulkCuts(c, start, loginId, token, owner) && !BulkTakes(c, start, loginId, token, owner)
      {
        BulkDeleteExactly(c, start, loginId, token, owner);
      }
    }
  }
}
