/** The in-memory session storage and its manager (sa-token-core/src/distributed.rs:872-1065). */
module MemorySessions {
  import opened Wrappers
  import opened Storage
  import opened Seqs
  import opened Sessions
  import ConstantTime

  datatype Memory = Memory(sessions: map<string, Session>, index: map<string, seq<string>>)

  const EMPTY := Memory(map[], map[])

  function Listed(m: Memory, loginId: string): seq<string> {
    if loginId in m.index then m.index[loginId] else []
  }

  function MemSave(m: Memory, s: Session): Memory {
    var ids := Listed(m, s.loginId);
    Memory(m.sessions[s.id := s], m.index[s.loginId := if s.id in ids then ids else ids + [s.id]])
  }

  function MemDelete(m: Memory, id: string): Memory {
    if id !in m.sessions then m
    else
      var loginId := m.sessions[id].loginId;
      var left := Remove(Listed(m, loginId), id);
      Memory(m.sessions - {id},
             if loginId !in m.index then m.index
             else if left == [] then m.index - {loginId}
             else m.index[loginId := left])
  }

  function Collect(m: Memory, ids: seq<string>): seq<Session> {
    if ids == [] then []
    else (if ids[0] in m.sessions then [m.sessions[ids[0]]] else []) + Collect(m, ids[1..])
  }

  function MemQuery(m: Memory, loginId: string): seq<Session> {
    Collect(m, Listed(m, loginId))
  }

  function MemDeleteEach(m: Memory, ids: seq<string>): Memory
    decreases |ids|
  {
    if ids == [] then m else MemDeleteEach(MemDelete(m, ids[0]), ids[1..])
  }

  lemma {:induction false} CollectConcat(m: Memory, a: seq<string>, b: seq<string>)
    ensures Collect(m, a + b) == Collect(m, a) + Collect(m, b)
  {
    if a == [] {
      assert a + b == b;
    } else {
      ConcatTail(a, b);
      CollectConcat(m, a[1..], b);
      if a[0] in m.sessions {
        ConsConcat(m.sessions[a[0]], Collect(m, a[1..]), Collect(m, b));
      }
    }
  }

  class InMemoryDistributedStorage {
    var sessions: map<string, Session>
    var loginIndex: map<string, seq<string>>

    function View(): Memory
      reads this
    {
      Memory(sessions, loginIndex)
    }

    constructor ()
      ensures View() == EMPTY
    {
      sessions, loginIndex := map[], map[];
    }

    /** The time to live is ignored. */
    method SaveSession(s: Session, ttl: Option<nat>)
      modifies this
      ensures View() == MemSave(old(View()), s)
    {
      sessions := sessions[s.id := s];
      var list := if s.loginId in loginIndex then loginIndex[s.loginId] else [];
      if s.id !in list {
        list := list + [s.id];
      }
      loginIndex := loginIndex[s.loginId := list];
    }

    method GetSession(id: string) returns (r: Option<Session>)
      ensures r == if id in sessions then Some(sessions[id]) else None
    {
      r := if id in sessions then Some(sessions[id]) else None;
    }

    method DeleteSession(id: string)
      modifies this
      ensures View() == MemDelete(old(View()), id)
    {
      if id in sessions {
        var loginId := sessions[id].loginId;
        sessions := sessions - {id};
        if loginId in loginIndex {
          var left := Remove(loginIndex[loginId], id);
          loginIndex := loginIndex[loginId := left];
          if left == [] {
            loginIndex := loginIndex - {loginId};
          }
        }
      }
    }

    method GetSessionsByLoginId(loginId: string) returns (found: seq<Session>)
      ensures found == MemQuery(View(), loginId)
    {
      var ids := if loginId in loginIndex then loginIndex[loginId] else [];
      found := [];
      for i := 0 to |ids|
        invariant found == Collect(View(), ids[..i])
      {
        CollectConcat(View(), ids[..i], [ids[i]]);
        assert ids[..i + 1] == ids[..i] + [ids[i]];
        if ids[i] in sessions {
          found := found + [sessions[ids[i]]];
        }
      }
      assert ids[..|ids|] == ids;
    }
  }

  class DistributedSessionManager {
    const storage: InMemoryDistributedStorage
    const serviceId: string
    const sessionTimeout: nat

    constructor (storage: InMemoryDistributedStorage, serviceId: string, sessionTimeout: nat)
      ensures this.storage == storage && this.serviceId == serviceId && this.sessionTimeout == sessionTimeout
    {
      this.storage, this.serviceId, this.sessionTimeout := storage, serviceId, sessionTimeout;
    }

    /** `uuid` is fresh, so the new session is appended whatever the ledger. */
    method CreateSession(loginId: string, token: string, uuid: string, now: int) returns (s: Session)
      modifies storage
      ensures s == Session(uuid, loginId, token, serviceId, now, now, map[])
      ensures storage.View() == MemSave(old(storage.View()), s)
      ensures forall l :: MemHolds(old(storage.View()), l) && uuid !in old(storage.sessions) ==>
                MemHolds(storage.View(), l + [s])
    {
      s := Session(uuid, loginId, token, serviceId, now, now, map[]);
      storage.SaveSession(s, Some(sessionTimeout));
      forall l | MemHolds(old(storage.View()), l) && uuid !in old(storage.sessions) ensures MemHolds(storage.View(), l + [s]) {
        MemSaveRefines(old(storage.View()), l, s);
        SaveAppends(l, s);
      }
    }

    /** The session is replaced where it stands, as long as it keeps its login. */
    method UpdateSession(s: Session)
      modifies storage
      ensures storage.View() == MemSave(old(storage.View()), s)
      ensures forall l :: MemHolds(old(storage.View()), l) && (Find(l, s.id).Some? ==> Find(l, s.id).value.loginId == s.loginId) ==>
                MemHolds(storage.View(), Save(l, s))
    {
      storage.SaveSession(s, Some(sessionTimeout));
      forall l | MemHolds(old(storage.View()), l) && (Find(l, s.id).Some? ==> Find(l, s.id).value.loginId == s.loginId)
        ensures MemHolds(storage.View(), Save(l, s))
      {
        assert (if s.id in old(storage.sessions) then Some(old(storage.sessions)[s.id]) else None) == Find(l, s.id);
        MemSaveRefines(old(storage.View()), l, s);
      }
    }

    /** Removes exactly the sessions of the login, leaving every other session and every order as it was. */
    method DeleteAllSessions(loginId: string)
      modifies storage
      ensures forall l :: MemHolds(old(storage.View()), l) ==> MemHolds(storage.View(), Without(l, loginId, None))
    {
      DeleteNamed(loginId, None);
    }

    /** The same for the sessions of the login that carry `token`. */
    method DeleteSessionsByToken(loginId: string, token: string)
      modifies storage
      ensures forall l :: MemHolds(old(storage.View()), l) ==> MemHolds(storage.View(), Without(l, loginId, Some(token)))
    {
      DeleteNamed(loginId, Some(token));
    }

    /** Both loops: with a token, only the sessions that carry it are deleted. */
    method DeleteNamed(loginId: string, token: Option<string>)
      modifies storage
      ensures forall l :: MemHolds(old(storage.View()), l) ==> MemHolds(storage.View(), Without(l, loginId, token))
    {
      ghost var start := storage.View();
      var found := storage.GetSessionsByLoginId(loginId);
      ghost var deleted: seq<string> := [];
      for i := 0 to |found|
        invariant storage.View() == MemDeleteEach(start, deleted)
        invariant deleted == Chosen(found[..i], token)
      {
        var chosen := true;
        if token.Some? {
          chosen := ConstantTime.SameText(found[i].token, token.value);
        }
        ChosenConcat(found[..i], found[i], token);
        assert found[..i + 1] == found[..i] + [found[i]];
        if chosen {
          MemDeleteOneMore(start, deleted, found[i].id);
          storage.DeleteSession(found[i].id);
          deleted := deleted + [found[i].id];
        }
      }
      assert found[..|found|] == found;
      forall l | MemHolds(start, l) ensures MemHolds(storage.View(), Without(l, loginId, token)) {
        MemQueryRefines(start, l, loginId);
        OfLoginMembers(l, loginId);
        ChosenIsNamed(found, loginId, token);
        MemDeleteEachRefines(start, l, deleted);
        BulkDelete(l, loginId, token);
      }
    }
  }

  /** The ids the bulk delete loop deletes. */
  function Chosen(found: seq<Session>, token: Option<string>): seq<string> {
    if found == [] then []
    else (if token == None || token == Some(found[0].token) then [found[0].id] else []) + Chosen(found[1..], token)
  }

  lemma {:induction false} ChosenConcat(a: seq<Session>, s: Session, token: Option<string>)
    ensures Chosen(a + [s], token) == Chosen(a, token) + (if token == None || token == Some(s.token) then [s.id] else [])
  {
    if a == [] {
      assert a + [s] == [s];
    } else {
      ChosenConcat(a[1..], s, token);
      assert (a + [s])[1..] == a[1..] + [s];
    }
  }

  lemma {:induction false} ChosenIsNamed(found: seq<Session>, loginId: string, token: Option<string>)
    requires forall s :: s in found ==> s.loginId == loginId
    ensures Chosen(found, token) == NamedIds(found, loginId, token)
  {
    if found != [] {
      assert found[0] in found;
      ChosenIsNamed(found[1..], loginId, token);
    }
  }

  lemma {:induction false} MemDeleteOneMore(m: Memory, ids: seq<string>, id: string)
    ensures MemDeleteEach(m, ids + [id]) == MemDelete(MemDeleteEach(m, ids), id)
    decreases |ids|
  {
    if ids == [] {
      assert ids + [id] == [id];
      assert [id][1..] == [];
    } else {
      MemDeleteOneMore(MemDelete(m, ids[0]), ids[1..], id);
      assert (ids + [id])[1..] == ids[1..] + [id];
    }
  }

  lemma {:induction false} SaveAppends(l: Ledger, s: Session)
    requires Find(l, s.id).None?
    ensures Save(l, s) == l + [s]
  {
    if l != [] {
      SaveAppends(l[1..], s);
    }
  }

  // ---------- The memory refines the reference ----------

  ghost predicate MemHolds(m: Memory, l: Ledger) {
    && UniqueIds(l)
    && (forall id :: (if id in m.sessions then Some(m.sessions[id]) else None) == Find(l, id))
    && (forall loginId :: Listed(m, loginId) == IndexOf(l, loginId))
    && (forall loginId :: loginId in m.index ==> m.index[loginId] != [])
  }

  lemma MemSaveRefines(m: Memory, l: Ledger, s: Session)
    requires MemHolds(m, l)
    requires s.id in m.sessions ==> m.sessions[s.id].loginId == s.loginId
    ensures MemHolds(MemSave(m, s), Save(l, s))
  {
    var n := MemSave(m, s);
    SaveKeepsUnique(l, s);
    forall id ensures (if id in n.sessions then Some(n.sessions[id]) else None) == Find(Save(l, s), id) {
      FindAfterSave(l, s, id);
      assert (if id in m.sessions then Some(m.sessions[id]) else None) == Find(l, id);
    }
    assert (if s.id in m.sessions then Some(m.sessions[s.id]) else None) == Find(l, s.id);
    forall loginId ensures Listed(n, loginId) == IndexOf(Save(l, s), loginId) {
      IndexAfterSave(l, s, loginId);
      IndexListsFound(l, s.loginId, s.id);
      assert Listed(m, loginId) == IndexOf(l, loginId);
    }
  }

  lemma MemDeleteRefines(m: Memory, l: Ledger, id: string)
    requires MemHolds(m, l)
    ensures MemHolds(MemDelete(m, id), WithoutId(l, id))
  {
    var n := MemDelete(m, id);
    WithoutIdKeepsUnique(l, id);
    forall x ensures (if x in n.sessions then Some(n.sessions[x]) else None) == Find(WithoutId(l, id), x) {
      FindAfterWithout(l, id, x);
      assert (if x in m.sessions then Some(m.sessions[x]) else None) == Find(l, x);
    }
    assert (if id in m.sessions then Some(m.sessions[id]) else None) == Find(l, id);
    forall loginId ensures Listed(n, loginId) == IndexOf(WithoutId(l, id), loginId) {
      IndexAfterWithout(l, id, loginId);
      IndexListsFound(l, loginId, id);
      assert Listed(m, loginId) == IndexOf(l, loginId);
      if id !in m.sessions || m.sessions[id].loginId != loginId {
        RemoveAbsent(IndexOf(l, loginId), id);
      }
    }
  }

  lemma {:induction false} MemDeleteEachRefines(m: Memory, l: Ledger, ids: seq<string>)
    requires MemHolds(m, l)
    ensures MemHolds(MemDeleteEach(m, ids), WithoutIds(l, ids))
    decreases |ids|
  {
    if ids != [] {
      MemDeleteRefines(m, l, ids[0]);
      MemDeleteEachRefines(MemDelete(m, ids[0]), WithoutId(l, ids[0]), ids[1..]);
    }
  }

  lemma {:induction false} CollectFound(m: Memory, ids: seq<string>, found: seq<Session>)
    requires |ids| == |found| && forall i :: 0 <= i < |ids| ==> ids[i] in m.sessions && m.sessions[ids[i]] == found[i]
    ensures Collect(m, ids) == found
  {
    if ids != [] {
      CollectFound(m, ids[1..], found[1..]);
    }
  }

  /** The per-login query is the plain filter of all sessions by login id, in first-save order. */
  lemma MemQueryRefines(m: Memory, l: Ledger, loginId: string)
    requires MemHolds(m, l)
    ensures MemQuery(m, loginId) == OfLogin(l, loginId)
  {
    var ids := IndexOf(l, loginId);
    assert Listed(m, loginId) == ids;
    forall i | 0 <= i < |ids| ensures ids[i] in m.sessions && m.sessions[ids[i]] == OfLogin(l, loginId)[i] {
      FindEach(l, loginId, i);
      assert (if ids[i] in m.sessions then Some(m.sessions[ids[i]]) else None) == Find(l, ids[i]);
    }
    CollectFound(m, ids, OfLogin(l, loginId));
  }

  // ---------- Exactly which saves keep the index in agreement ----------

  /** Every index lists, once each, exactly the stored sessions of its login. */
  ghost predicate Agrees(m: Memory) {
    && (forall id :: id in m.sessions ==> m.sessions[id].id == id)
    && (forall loginId :: Distinct(Listed(m, loginId)))
    && (forall loginId :: loginId in m.index ==> m.index[loginId] != [])
    && (forall loginId, id :: id in Listed(m, loginId) <==> id in m.sessions && m.sessions[id].loginId == loginId)
  }

  lemma HeldAgrees(m: Memory, l: Ledger)
    requires MemHolds(m, l)
    ensures Agrees(m)
  {
    forall id | id in m.sessions ensures m.sessions[id].id == id {
      FindIsMember(l, id);
      assert Some(m.sessions[id]) == Find(l, id);
    }
    forall loginId ensures Distinct(Listed(m, loginId)) {
      OfLoginUnique(l, loginId);
      assert Listed(m, loginId) == IndexOf(l, loginId);
    }
    forall loginId, id ensures id in Listed(m, loginId) <==> id in m.sessions && m.sessions[id].loginId == loginId {
      IndexListsFound(l, loginId, id);
      assert Listed(m, loginId) == IndexOf(l, loginId);
      assert (if id in m.sessions then Some(m.sessions[id]) else None) == Find(l, id);
    }
  }

  /** A save keeps the agreement exactly when it does not move an existing session to another login. */
  lemma SaveAgreesExactly(m: Memory, s: Session)
    requires Agrees(m)
    ensures Agrees(MemSave(m, s)) <==> (s.id in m.sessions ==> m.sessions[s.id].loginId == s.loginId)
    ensures s.id in m.sessions && m.sessions[s.id].loginId != s.loginId ==>
              s in MemQuery(MemSave(m, s), m.sessions[s.id].loginId)
  {
    var n := MemSave(m, s);
    if s.id in m.sessions && m.sessions[s.id].loginId != s.loginId {
      var former := m.sessions[s.id].loginId;
      assert s.id in Listed(m, former) && Listed(n, former) == Listed(m, former);
      CollectMember(n, Listed(n, former), s.id);
    } else {
      forall loginId ensures Distinct(Listed(n, loginId)) {
        assert Distinct(Listed(m, loginId));
      }
      forall loginId, id ensures id in Listed(n, loginId) <==> id in n.sessions && n.sessions[id].loginId == loginId {
        assert id in Listed(m, loginId) <==> id in m.sessions && m.sessions[id].loginId == loginId;
      }
    }
  }

  /** Whatever is saved, index lists stay duplicate-free and non-empty. */
  ghost predicate Tidy(m: Memory) {
    forall loginId :: loginId in m.index ==> m.index[loginId] != [] && Distinct(m.index[loginId])
  }

  lemma EveryOperationKeepsTidy(m: Memory, s: Session, id: string)
    requires Tidy(m)
    ensures Tidy(MemSave(m, s)) && Tidy(MemDelete(m, id))
  {
    if id in m.sessions && m.sessions[id].loginId in m.index {
      RemoveKeepsDistinct(m.index[m.sessions[id].loginId], id);
    }
  }

  lemma {:induction false} CollectMember(m: Memory, ids: seq<string>, id: string)
    requires id in ids && id in m.sessions
    ensures m.sessions[id] in Collect(m, ids)
  {
    if ids[0] != id {
      CollectMember(m, ids[1..], id);
    }
  }
}
