/**
 Distributed sessions (sa-token-core/src/distributed.rs): the session record and a reference
 definition of the storage trait, one list of sessions in the order they were first saved.
 */
module Sessions {
  import opened Wrappers
  import opened Storage
  import opened Seqs

  datatype Session = Session(
    id: string,
    loginId: string,
    token: string,
    serviceId: string,
    createTime: int,
    lastAccess: int,
    attributes: map<string, string>)

  /** Sessions with distinct ids, oldest first save first. */
  type Ledger = seq<Session>

  function Ids(l: Ledger): (ids: seq<string>)
    ensures |ids| == |l| && forall i :: 0 <= i < |l| ==> ids[i] == l[i].id
  {
    seq(|l|, i requires 0 <= i < |l| => l[i].id)
  }

  ghost predicate UniqueIds(l: Ledger) {
    forall i, j :: 0 <= i < j < |l| ==> l[i].id != l[j].id
  }

  function Find(l: Ledger, id: string): Option<Session> {
    if l == [] then None
    else if l[0].id == id then Some(l[0])
    else Find(l[1..], id)
  }

  /** A plain filter. */
  function OfLogin(l: Ledger, loginId: string): Ledger {
    if l == [] then []
    else if l[0].loginId == loginId then [l[0]] + OfLogin(l[1..], loginId)
    else OfLogin(l[1..], loginId)
  }

  function WithoutId(l: Ledger, id: string): Ledger {
    if l == [] then []
    else if l[0].id == id then WithoutId(l[1..], id)
    else [l[0]] + WithoutId(l[1..], id)
  }

  /** Saving replaces the session with that id where it stands, or appends. */
  function Save(l: Ledger, s: Session): Ledger {
    if l == [] then [s]
    else if l[0].id == s.id then [s] + l[1..]
    else [l[0]] + Save(l[1..], s)
  }

  // ---------- Facts about the reference ----------

  lemma {:induction false} FindIsMember(l: Ledger, id: string)
    ensures match Find(l, id)
            case Some(s) => s in l && s.id == id
            case None => forall s :: s in l ==> s.id != id
  {
    if l != [] {
      FindIsMember(l[1..], id);
    }
  }

  lemma {:induction false} OfLoginMembers(l: Ledger, loginId: string)
    ensures forall s :: s in OfLogin(l, loginId) <==> s in l && s.loginId == loginId
  {
    if l != [] {
      OfLoginMembers(l[1..], loginId);
    }
  }

  lemma {:induction false} WithoutIdMembers(l: Ledger, id: string)
    ensures forall s :: s in WithoutId(l, id) <==> s in l && s.id != id
  {
    if l != [] {
      WithoutIdMembers(l[1..], id);
    }
  }

  lemma {:induction false} SaveMembers(l: Ledger, s: Session)
    requires UniqueIds(l)
    ensures forall x :: x in Save(l, s) <==> x == s || (x in l && x.id != s.id)
  {
    if l != [] {
      assert forall x :: x in l[1..] ==> x.id != l[0].id;
      if l[0].id != s.id {
        SaveMembers(l[1..], s);
      }
    }
  }

  lemma {:induction false} SaveKeepsUnique(l: Ledger, s: Session)
    requires UniqueIds(l)
    ensures UniqueIds(Save(l, s))
  {
    if l != [] && l[0].id != s.id {
      SaveKeepsUnique(l[1..], s);
      SaveMembers(l[1..], s);
      var rest := Save(l[1..], s);
      assert forall i :: 0 <= i < |rest| ==> rest[i] in rest;
    }
  }

  lemma {:induction false} WithoutIdKeepsUnique(l: Ledger, id: string)
    requires UniqueIds(l)
    ensures UniqueIds(WithoutId(l, id))
  {
    if l != [] {
      WithoutIdKeepsUnique(l[1..], id);
      WithoutIdMembers(l[1..], id);
      var rest := WithoutId(l[1..], id);
      assert forall i :: 0 <= i < |rest| ==> rest[i] in rest;
    }
  }

  lemma {:induction false} FindAfterSave(l: Ledger, s: Session, id: string)
    ensures Find(Save(l, s), id) == if id == s.id then Some(s) else Find(l, id)
  {
    if l != [] && l[0].id != s.id {
      FindAfterSave(l[1..], s, id);
    }
  }

  lemma {:induction false} FindAfterWithout(l: Ledger, removed: string, id: string)
    ensures Find(WithoutId(l, removed), id) == if id == removed then None else Find(l, id)
  {
    if l != [] {
      FindAfterWithout(l[1..], removed, id);
    }
  }

  /** The ids a login's index must list. */
  function IndexOf(l: Ledger, loginId: string): seq<string> {
    Ids(OfLogin(l, loginId))
  }

  lemma IdsConcat(a: Ledger, b: Ledger)
    ensures Ids(a + b) == Ids(a) + Ids(b)
  {
  }

  /** An index is what its login's first session contributes and the index of the rest. */
  lemma IndexOfCons(s: Session, l: Ledger, loginId: string)
    ensures IndexOf([s] + l, loginId) == if s.loginId == loginId then [s.id] + IndexOf(l, loginId) else IndexOf(l, loginId)
  {
    assert ([s] + l)[0] == s && ([s] + l)[1..] == l;
    if s.loginId == loginId {
      IdsConcat([s], OfLogin(l, loginId));
    }
  }

  /** A save under the session's own login keeps each index or appends to it. */
  lemma {:induction false} IndexAfterSave(l: Ledger, s: Session, loginId: string)
    requires UniqueIds(l)
    requires Find(l, s.id).Some? ==> Find(l, s.id).value.loginId == s.loginId
    ensures IndexOf(Save(l, s), loginId) ==
              if loginId == s.loginId && Find(l, s.id).None? then IndexOf(l, loginId) + [s.id] else IndexOf(l, loginId)
  {
    if l == [] {
      IndexOfCons(s, [], loginId);
      assert [s] + [] == [s];
    } else {
      assert l == [l[0]] + l[1..];
      IndexOfCons(l[0], l[1..], loginId);
      if l[0].id == s.id {
        IndexOfCons(s, l[1..], loginId);
      } else {
        IndexAfterSave(l[1..], s, loginId);
        IndexOfCons(l[0], Save(l[1..], s), loginId);
        ConsConcat(l[0].id, IndexOf(l[1..], loginId), [s.id]);
      }
    }
  }

  lemma {:induction false} IndexAfterWithout(l: Ledger, id: string, loginId: string)
    ensures IndexOf(WithoutId(l, id), loginId) == Remove(IndexOf(l, loginId), id)
  {
    if l != [] {
      IndexAfterWithout(l[1..], id, loginId);
      var head := if l[0].loginId == loginId then [l[0]] else [];
      IdsConcat(head, OfLogin(l[1..], loginId));
      assert OfLogin(l, loginId) == head + OfLogin(l[1..], loginId);
      RemoveConcat(Ids(head), IndexOf(l[1..], loginId), id);
      if l[0].id != id && l[0].loginId == loginId {
        IdsConcat(head, OfLogin(WithoutId(l[1..], id), loginId));
        assert Ids(head) == [l[0].id] && Remove(Ids(head), id) == Ids(head);
      } else if l[0].loginId == loginId {
        assert Ids(head) == [id] && Remove(Ids(head), id) == [];
      }
    }
  }

  lemma IndexListsFound(l: Ledger, loginId: string, id: string)
    requires UniqueIds(l)
    ensures id in IndexOf(l, loginId) <==> Find(l, id).Some? && Find(l, id).value.loginId == loginId
  {
    FindIsMember(l, id);
    OfLoginMembers(l, loginId);
    var mine := OfLogin(l, loginId);
    if id in IndexOf(l, loginId) {
      var i :| 0 <= i < |mine| && Ids(mine)[i] == id;
      assert mine[i] in mine;
      UniqueMember(l, mine[i], Find(l, id).value);
    }
    if Find(l, id).Some? && Find(l, id).value.loginId == loginId {
      var i :| 0 <= i < |mine| && mine[i] == Find(l, id).value;
      assert Ids(mine)[i] == id;
    }
  }

  lemma UniqueMember(l: Ledger, a: Session, b: Session)
    requires UniqueIds(l) && a in l && b in l && a.id == b.id
    ensures a == b
  {
  }

  lemma {:induction false} OfLoginUnique(l: Ledger, loginId: string)
    requires UniqueIds(l)
    ensures UniqueIds(OfLogin(l, loginId)) && Distinct(IndexOf(l, loginId))
  {
    if l != [] {
      OfLoginUnique(l[1..], loginId);
      OfLoginMembers(l[1..], loginId);
      var rest := OfLogin(l[1..], loginId);
      assert forall i :: 0 <= i < |rest| ==> rest[i] in rest;
    }
  }

  /** Looking up each id an index lists gives the plain filter. */
  lemma FindEach(l: Ledger, loginId: string, i: nat)
    requires UniqueIds(l) && i < |OfLogin(l, loginId)|
    ensures Find(l, IndexOf(l, loginId)[i]) == Some(OfLogin(l, loginId)[i])
  {
    var s := OfLogin(l, loginId)[i];
    OfLoginMembers(l, loginId);
    assert s in OfLogin(l, loginId);
    FindIsMember(l, s.id);
    UniqueMember(l, s, Find(l, s.id).value);
  }

  // ---------- Removing several sessions ----------

  function WithoutIds(l: Ledger, ids: seq<string>): Ledger
    decreases |ids|
  {
    if ids == [] then l else WithoutIds(WithoutId(l, ids[0]), ids[1..])
  }

  predicate Named(s: Session, loginId: string, token: Option<string>) {
    s.loginId == loginId && (token == None || token == Some(s.token))
  }

  /** The ledger without the sessions of a login, or only those that carry a token. */
  function Without(l: Ledger, loginId: string, token: Option<string>): Ledger {
    if l == [] then []
    else if Named(l[0], loginId, token) then Without(l[1..], loginId, token)
    else [l[0]] + Without(l[1..], loginId, token)
  }

  /** The ids a bulk delete names, in index order. */
  function NamedIds(mine: Ledger, loginId: string, token: Option<string>): seq<string> {
    if mine == [] then []
    else if Named(mine[0], loginId, token) then [mine[0].id] + NamedIds(mine[1..], loginId, token)
    else NamedIds(mine[1..], loginId, token)
  }

  lemma {:induction false} NamedIdsMembers(mine: Ledger, loginId: string, token: Option<string>, id: string)
    ensures id in NamedIds(mine, loginId, token) <==> exists s :: s in mine && s.id == id && Named(s, loginId, token)
  {
    if mine != [] {
      NamedIdsMembers(mine[1..], loginId, token, id);
    }
  }

  lemma {:induction false} WithoutIdsSplits(head: Ledger, tail: Ledger, ids: seq<string>)
    ensures WithoutIds(head + tail, ids) == WithoutIds(head, ids) + WithoutIds(tail, ids)
    decreases |ids|
  {
    if ids != [] {
      WithoutIdSplits(head, tail, ids[0]);
      WithoutIdsSplits(WithoutId(head, ids[0]), WithoutId(tail, ids[0]), ids[1..]);
    }
  }

  lemma {:induction false} WithoutIdSplits(head: Ledger, tail: Ledger, id: string)
    ensures WithoutId(head + tail, id) == WithoutId(head, id) + WithoutId(tail, id)
  {
    if head == [] {
      assert head + tail == tail;
    } else {
      ConcatTail(head, tail);
      WithoutIdSplits(head[1..], tail, id);
      ConsConcat(head[0], WithoutId(head[1..], id), WithoutId(tail, id));
    }
  }

  lemma {:induction false} WithoutIdsSingle(s: Session, ids: seq<string>)
    ensures WithoutIds([s], ids) == if s.id in ids then [] else [s]
  {
    if ids != [] {
      if ids[0] == s.id {
        WithoutIdsNothing(ids[1..]);
        assert WithoutId([s], ids[0]) == [];
      } else {
        WithoutIdsSingle(s, ids[1..]);
        assert WithoutId([s], ids[0]) == [s];
      }
    }
  }

  lemma {:induction false} WithoutIdsNothing(ids: seq<string>)
    ensures WithoutIds([], ids) == []
  {
    if ids != [] {
      WithoutIdsNothing(ids[1..]);
    }
  }

  /** Deleting ids one by one is the plain filter, when the ids are those of the named sessions. */
  lemma {:induction false} WithoutIdsIsFilter(l: Ledger, ids: seq<string>, loginId: string, token: Option<string>)
    requires forall s :: s in l ==> (s.id in ids <==> Named(s, loginId, token))
    ensures WithoutIds(l, ids) == Without(l, loginId, token)
  {
    if l == [] {
      WithoutIdsNothing(ids);
    } else {
      assert l == [l[0]] + l[1..];
      WithoutIdsSplits([l[0]], l[1..], ids);
      WithoutIdsSingle(l[0], ids);
      WithoutIdsIsFilter(l[1..], ids, loginId, token);
      assert l[0] in l;
    }
  }

  lemma BulkDelete(l: Ledger, loginId: string, token: Option<string>)
    requires UniqueIds(l)
    ensures WithoutIds(l, NamedIds(OfLogin(l, loginId), loginId, token)) == Without(l, loginId, token)
  {
    var mine := OfLogin(l, loginId);
    OfLoginMembers(l, loginId);
    forall s | s in l ensures s.id in NamedIds(mine, loginId, token) <==> Named(s, loginId, token) {
      NamedIdsMembers(mine, loginId, token, s.id);
      if exists x :: x in mine && x.id == s.id && Named(x, loginId, token) {
        var x :| x in mine && x.id == s.id && Named(x, loginId, token);
        UniqueMember(l, x, s);
      }
    }
    WithoutIdsIsFilter(l, NamedIds(mine, loginId, token), loginId, token);
  }

  /** What the reduced ledger holds: everything but the login's sessions, or but those of them with the token. */
  lemma {:induction false} WithoutMembers(l: Ledger, loginId: string, token: Option<string>)
    ensures forall s :: s in Without(l, loginId, token) <==>
              s in l && !(s.loginId == loginId && (token.None? || s.token == token.value))
  {
    if l != [] {
      WithoutMembers(l[1..], loginId, token);
    }
  }
}
