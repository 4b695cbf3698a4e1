/**
 Session storage over a backend whose reads drop what has expired, together with the list under the same
 key, as sa-token-storage-memory/src/lib.rs:146-157 does. Every operation is then the one of
 `DaoSessions` with evictions after it (or, for a delete, before it), so runs with evictions cover it.
 */
module EvictingReads {
  import opened Wrappers
  import opened Storage
  import opened Keys
  import opened Sessions
  import opened DaoSessions

  /** The repair loop, each read evicting. */
  function EvictingVisit(c: SaKeys, db: Db, index: Key, ids: seq<string>): (Db, seq<Session>)
    decreases |ids|
  {
    if ids == [] then (db, [])
    else
      var read := db.Evicted(SKey(c, ids[0]));
      match db.Get(SKey(c, ids[0]))
      case Some(s) => var rest := EvictingVisit(c, read, index, ids[1..]); (rest.0, [s] + rest.1)
      case None => EvictingVisit(c, read.Pulled(index, ids[0]), index, ids[1..])
  }

  function EvictingQuery(c: SaKeys, db: Db, loginId: string): (Db, seq<Session>) {
    EvictingVisit(c, db, IKey(c, loginId), db.Members(IKey(c, loginId)))
  }

  function EvictEach(c: SaKeys, db: Db, ids: seq<string>): Db
    decreases |ids|
  {
    if ids == [] then db else EvictEach(c, db.Evicted(SKey(c, ids[0])), ids[1..])
  }

  lemma EvictedThenPulled(db: Db, key: Key, index: Key, member: string)
    ensures db.Pulled(index, member).Evicted(key) == db.Evicted(key).Pulled(index, member)
  {
  }

  lemma {:induction false} VisitAfterEviction(c: SaKeys, db: Db, key: Key, index: Key, ids: seq<string>)
    ensures Visit(c, db.Evicted(key), index, ids) == (Visit(c, db, index, ids).0.Evicted(key), Visit(c, db, index, ids).1)
    decreases |ids|
  {
    if ids != [] {
      if LiveId(c, db, ids[0]) {
        VisitAfterEviction(c, db, key, index, ids[1..]);
      } else {
        EvictedThenPulled(db, key, index, ids[0]);
        VisitAfterEviction(c, db.Pulled(index, ids[0]), key, index, ids[1..]);
      }
    }
  }

  /** Evicting while reading is reading first and then evicting what was read. */
  lemma {:induction false} EvictingVisitExactly(c: SaKeys, db: Db, index: Key, ids: seq<string>)
    ensures EvictingVisit(c, db, index, ids) == (EvictEach(c, Visit(c, db, index, ids).0, ids), Visit(c, db, index, ids).1)
    decreases |ids|
  {
    if ids != [] {
      var key := SKey(c, ids[0]);
      if LiveId(c, db, ids[0]) {
        EvictingVisitExactly(c, db, index, ids[1..]);
        VisitAfterEviction(c, db, key, index, ids[1..]);
      } else {
        EvictedThenPulled(db, key, index, ids[0]);
        EvictingVisitExactly(c, db.Evicted(key).Pulled(index, ids[0]), index, ids[1..]);
        VisitAfterEviction(c, db.Pulled(index, ids[0]), key, index, ids[1..]);
      }
    }
  }

  predicate Expired(c: SaKeys, db: Db, id: string) {
    SKey(c, id) in db.scalars && !LiveId(c, db, id)
  }

  lemma {:induction false} EvictEachEffect(c: SaKeys, db: Db, ids: seq<string>)
    ensures var after := EvictEach(c, db, ids);
            && (Lasting(db) ==> Lasting(after))
            && (forall x :: after.Get(SKey(c, x)) == db.Get(SKey(c, x)))
            && (forall loginId :: after.Members(IKey(c, loginId)) ==
                  if INDEX + loginId in ids && Expired(c, db, INDEX + loginId) then [] else db.Members(IKey(c, loginId)))
    decreases |ids|
  {
    if ids != [] {
      var next := db.Evicted(SKey(c, ids[0]));
      SessionKeys(c);
      EvictEffect(c, db, ids[0]);
      EvictEachEffect(c, next, ids[1..]);
      assert forall id :: id in ids <==> id == ids[0] || id in ids[1..];
      assert forall id :: id != ids[0] ==> Expired(c, next, id) == Expired(c, db, id);
    }
  }

  /**
   Over such a backend too the query returns exactly the live sessions of the login, each once. It keeps
   every live session indexed exactly when no expired id that the login's index listed names the index of
   a live session.
   */
  lemma EvictingQueryExactly(c: SaKeys, db: Db, loginId: string, owner: string -> string)
    requires Indexed(c, db, owner)
    ensures var (after, found) := EvictingQuery(c, db, loginId);
            && (forall s :: s in found <==> db.Get(SKey(c, s.id)) == Some(s) && s.loginId == loginId)
            && UniqueIds(found)
            && (Indexed(c, after, owner) <==>
                  forall id :: id in db.Members(IKey(c, loginId)) ==> !EvictsIndex(c, db, id, owner))
  {
    var ids := db.Members(IKey(c, loginId));
    var (queried, found) := DaoQuery(c, db, loginId);
    EvictingVisitExactly(c, db, IKey(c, loginId), ids);
    QueryReturnsLive(c, db, loginId, owner);
    EvictedIndexedExactly(c, queried, ids, owner);
    assert forall id :: LiveId(c, queried, id) == LiveId(c, db, id);
    assert forall id :: EvictsIndex(c, queried, id, owner) <==> EvictsIndex(c, db, id, owner);
  }

  lemma EvictedIndexedExactly(c: SaKeys, db: Db, ids: seq<string>, owner: string -> string)
    requires Indexed(c, db, owner)
    ensures Indexed(c, EvictEach(c, db, ids), owner) <==> forall id :: id in ids ==> !EvictsIndex(c, db, id, owner)
  {
    var after := EvictEach(c, db, ids);
    EvictEachEffect(c, db, ids);
    if forall id :: id in ids ==> !EvictsIndex(c, db, id, owner) {
      forall loginId ensures Distinct(after.Members(IKey(c, loginId))) {
        assert Distinct(db.Members(IKey(c, loginId)));
      }
      forall x | LiveId(c, after, x)
        ensures OwnedSession(after.Get(SKey(c, x)).value, x, owner) && x in after.Members(IKey(c, owner(x)))
      {
        assert LiveId(c, db, x);
        assert INDEX + owner(x) in ids && Expired(c, db, INDEX + owner(x)) ==> EvictsIndex(c, db, INDEX + owner(x), owner);
      }
    } else {
      var id :| id in ids && EvictsIndex(c, db, id, owner);
      var x :| LiveId(c, db, x) && id == INDEX + owner(x);
      assert LiveId(c, after, x) && after.Members(IKey(c, owner(x))) == [];
    }
  }

  /** A delete reads the session first; evicting it then changes nothing. */
  lemma EvictingDeleteSame(c: SaKeys, db: Db, id: string)
    ensures DaoDelete(c, db.Evicted(SKey(c, id)), id) == DaoDelete(c, db, id)
  {
  }
}
