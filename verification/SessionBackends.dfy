/** Whole runs over the two session backends: when they cannot be told apart, and what the Dao keeps. */
module SessionBackends {
  import opened Wrappers
  import opened Storage
  import opened Keys
  import opened Sessions
  import opened MemorySessions
  import opened DaoSessions

  datatype Op =
    | SaveOp(session: Session, ttl: Option<nat>)
    | GetOp(id: string)
    | DeleteOp(id: string)
    | QueryOp(loginId: string)
    | Elapse(ms: nat)
    | Evict(id: string)   // the backend drops an expired session

  datatype Answer = Done | Got(found: Option<Session>) | Sessions(listed: seq<Session>)

  function MemApply(m: Memory, op: Op): (Memory, Answer) {
    match op
    case SaveOp(s, _) => (MemSave(m, s), Done)
    case GetOp(id) => (m, Got(if id in m.sessions then Some(m.sessions[id]) else None))
    case DeleteOp(id) => (MemDelete(m, id), Done)
    case QueryOp(loginId) => (m, Sessions(MemQuery(m, loginId)))
    case Elapse(_) => (m, Done)
    case Evict(_) => (m, Done)
  }

  function DaoApply(c: SaKeys, db: Db, op: Op): (Db, Answer) {
    match op
    case SaveOp(s, ttl) => (DaoSave(c, db, s, ttl), Done)
    case GetOp(id) => (db, Got(db.Get(SKey(c, id))))
    case DeleteOp(id) => (DaoDelete(c, db, id), Done)
    case QueryOp(loginId) => var (after, found) := DaoQuery(c, db, loginId); (after, Sessions(found))
    case Elapse(ms) => (db.Later(ms), Done)
    case Evict(id) => (db.Evicted(SKey(c, id)), Done)
  }

  function LedgerApply(l: Ledger, op: Op): (Ledger, Answer) {
    match op
    case SaveOp(s, _) => (Save(l, s), Done)
    case GetOp(id) => (l, Got(Find(l, id)))
    case DeleteOp(id) => (WithoutId(l, id), Done)
    case QueryOp(loginId) => (l, Sessions(OfLogin(l, loginId)))
    case Elapse(_) => (l, Done)
    case Evict(_) => (l, Done)
  }

  function MemAnswers(m: Memory, ops: seq<Op>): seq<Answer>
    decreases |ops|
  {
    if ops == [] then [] else [MemApply(m, ops[0]).1] + MemAnswers(MemApply(m, ops[0]).0, ops[1..])
  }

  function DaoAnswers(c: SaKeys, db: Db, ops: seq<Op>): seq<Answer>
    decreases |ops|
  {
    if ops == [] then [] else [DaoApply(c, db, ops[0]).1] + DaoAnswers(c, DaoApply(c, db, ops[0]).0, ops[1..])
  }

  function LedgerAnswers(l: Ledger, ops: seq<Op>): seq<Answer>
    decreases |ops|
  {
    if ops == [] then [] else [LedgerApply(l, ops[0]).1] + LedgerAnswers(LedgerApply(l, ops[0]).0, ops[1..])
  }

  /** Each session id is bound to one login id for the whole run. */
  ghost predicate Bound(ops: seq<Op>, owner: string -> string) {
    forall i :: 0 <= i < |ops| && ops[i].SaveOp? ==> ops[i].session.loginId == owner(ops[i].session.id)
  }

  ghost predicate Owned(l: Ledger, owner: string -> string) {
    forall s :: s in l ==> s.loginId == owner(s.id)
  }

  /** In no state of the run has a stored entry expired. */
  ghost predicate NothingExpires(c: SaKeys, db: Db, ops: seq<Op>)
    decreases |ops|
  {
    db.AllLive() && (ops != [] ==> NothingExpires(c, DaoApply(c, db, ops[0]).0, ops[1..]))
  }

  ghost predicate DaoHolds(c: SaKeys, db: Db, l: Ledger) {
    && UniqueIds(l)
    && (forall id :: db.Get(SKey(c, id)) == Find(l, id))
    && (forall loginId :: db.Members(IKey(c, loginId)) == IndexOf(l, loginId))
    && Lasting(db)
  }

  // ---------- Deletes that reach another session ----------

  /** Deleting `id` empties its login's index, whose key is the key of session `s`. */
  predicate TakesAlong(l: Ledger, id: string, s: Session) {
    Find(l, id).Some? && s.id == INDEX + Find(l, id).value.loginId
    && OfLogin(WithoutId(l, id), Find(l, id).value.loginId) == []
  }

  /** The id names the index of some other session's login, or the delete takes another session along. */
  ghost predicate Crosses(l: Ledger, id: string) {
    exists s :: s in l && s.id != id && (id == INDEX + s.loginId || TakesAlong(l, id, s))
  }

  /** No delete of the run crosses, in the plain list it is applied to. */
  ghost predicate Uncrossed(l: Ledger, ops: seq<Op>)
    decreases |ops|
  {
    ops != [] ==>
      && (ops[0].DeleteOp? ==> !Crosses(l, ops[0].id))
      && Uncrossed(LedgerApply(l, ops[0]).0, ops[1..])
  }

  predicate Reads(op: Op) {
    op.GetOp? || op.QueryOp?
  }

  /** In every state of the run, every read is answered alike. */
  ghost predicate Alike(c: SaKeys, m: Memory, db: Db, ops: seq<Op>)
    decreases |ops|
  {
    && (forall probe :: Reads(probe) ==> MemApply(m, probe).1 == DaoApply(c, db, probe).1)
    && (ops != [] ==> Alike(c, MemApply(m, ops[0]).0, DaoApply(c, db, ops[0]).0, ops[1..]))
  }

  /** What a caller can check: no session id in the run names an index. */
  predicate PlainIds(ops: seq<Op>) {
    forall i :: 0 <= i < |ops| ==>
      (ops[i].SaveOp? ==> Plain(ops[i].session.id)) && (ops[i].DeleteOp? ==> Plain(ops[i].id))
  }

  // ---------- One operation ----------

  lemma ApplyKeepsOwned(l: Ledger, op: Op, owner: string -> string)
    requires UniqueIds(l) && Owned(l, owner) && (op.SaveOp? ==> op.session.loginId == owner(op.session.id))
    ensures UniqueIds(LedgerApply(l, op).0) && Owned(LedgerApply(l, op).0, owner)
  {
    match op
    case SaveOp(s, _) => SaveMembers(l, s); SaveKeepsUnique(l, s);
    case DeleteOp(id) => WithoutIdMembers(l, id); WithoutIdKeepsUnique(l, id);
    case _ =>
  }

  lemma MemApplyRefines(m: Memory, l: Ledger, op: Op, owner: string -> string)
    requires MemHolds(m, l) && Owned(l, owner) && (op.SaveOp? ==> op.session.loginId == owner(op.session.id))
    ensures MemHolds(MemApply(m, op).0, LedgerApply(l, op).0)
    ensures MemApply(m, op).1 == LedgerApply(l, op).1
  {
    match op
    case SaveOp(s, _) =>
      assert (if s.id in m.sessions then Some(m.sessions[s.id]) else None) == Find(l, s.id);
      FindIsMember(l, s.id);
      MemSaveRefines(m, l, s);
    case GetOp(id) =>
      assert (if id in m.sessions then Some(m.sessions[id]) else None) == Find(l, id);
    case DeleteOp(id) => MemDeleteRefines(m, l, id);
    case QueryOp(loginId) => MemQueryRefines(m, l, loginId);
    case Elapse(_) =>
    case Evict(_) =>
  }

  lemma DaoSaveRefines(c: SaKeys, db: Db, l: Ledger, s: Session, ttl: Option<nat>)
    requires DaoHolds(c, db, l) && (Find(l, s.id).Some? ==> Find(l, s.id).value.loginId == s.loginId)
    requires DaoSave(c, db, s, ttl).AllLive()
    ensures DaoHolds(c, DaoSave(c, db, s, ttl), Save(l, s))
  {
    var after := DaoSave(c, db, s, ttl);
    SaveKeepsUnique(l, s);
    SaveEffect(c, db, s, ttl);
    assert after.scalars[SKey(c, s.id)].Live(after.now);
    forall id ensures after.Get(SKey(c, id)) == Find(Save(l, s), id) {
      FindAfterSave(l, s, id);
      assert db.Get(SKey(c, id)) == Find(l, id);
    }
    forall loginId ensures after.Members(IKey(c, loginId)) == IndexOf(Save(l, s), loginId) {
      IndexAfterSave(l, s, loginId);
      IndexListsFound(l, s.loginId, s.id);
      assert db.Members(IKey(c, loginId)) == IndexOf(l, loginId);
    }
  }

  /** In the state of a plain list, a session survives a delete exactly when the delete does not take it along. */
  lemma SurvivesInList(c: SaKeys, db: Db, l: Ledger, id: string, s: Session)
    requires DaoHolds(c, db, l) && s in l && s.id != id && id != INDEX + s.loginId
    requires !TakesAlong(l, id, s)
    ensures Crosses(l, id) || Survives(c, db, id, s.id)
  {
    FindIsMember(l, s.id);
    assert db.Get(SKey(c, s.id)) == Find(l, s.id);
    assert db.Get(SKey(c, id)) == Find(l, id);
    if Find(l, id).Some? {
      var loginId := Find(l, id).value.loginId;
      IndexAfterWithout(l, id, loginId);
      assert db.Members(IKey(c, loginId)) == IndexOf(l, loginId);
    }
  }

  lemma IndexAfterUncrossed(c: SaKeys, db: Db, l: Ledger, id: string, loginId: string)
    requires DaoHolds(c, db, l) && !Crosses(l, id)
    ensures MembersAfterDelete(c, db, id, loginId) == IndexOf(WithoutId(l, id), loginId)
  {
    var left := OfLogin(WithoutId(l, id), loginId);
    assert |left| > 0 ==> left[0] in left;
    IndexAfterWithout(l, id, loginId);
    IndexListsFound(l, loginId, id);
    assert db.Members(IKey(c, loginId)) == IndexOf(l, loginId);
    assert db.Get(SKey(c, id)) == Find(l, id);
    if id == INDEX + loginId {
      OfLoginMembers(WithoutId(l, id), loginId);
      WithoutIdMembers(l, id);
    } else if Find(l, id).None? || Find(l, id).value.loginId != loginId {
      RemoveAbsent(IndexOf(l, loginId), id);
    }
  }

  lemma DaoDeleteRefines(c: SaKeys, db: Db, l: Ledger, id: string)
    requires DaoHolds(c, db, l) && !Crosses(l, id)
    ensures DaoHolds(c, DaoDelete(c, db, id), WithoutId(l, id))
  {
    var after := DaoDelete(c, db, id);
    DeleteEffect(c, db, id);
    WithoutIdKeepsUnique(l, id);
    forall x ensures after.Get(SKey(c, x)) == Find(WithoutId(l, id), x) {
      FindAfterWithout(l, id, x);
      FindIsMember(l, x);
      assert db.Get(SKey(c, x)) == Find(l, x);
      if Find(l, x).Some? && x != id {
        SurvivesInList(c, db, l, id, Find(l, x).value);
      }
    }
    forall loginId ensures after.Members(IKey(c, loginId)) == IndexOf(WithoutId(l, id), loginId) {
      IndexAfterUncrossed(c, db, l, id, loginId);
    }
  }

  /** After a delete that crosses, some read tells the store from the list. */
  lemma CrossingIsSeen(c: SaKeys, db: Db, l: Ledger, id: string) returns (probe: Op)
    requires DaoHolds(c, db, l) && Crosses(l, id)
    ensures Reads(probe)
    ensures DaoApply(c, DaoDelete(c, db, id), probe).1 != LedgerApply(WithoutId(l, id), probe).1
  {
    var s :| s in l && s.id != id && (id == INDEX + s.loginId || TakesAlong(l, id, s));
    DeleteEffect(c, db, id);
    if id == INDEX + s.loginId {
      OfLoginMembers(WithoutId(l, id), s.loginId);
      WithoutIdMembers(l, id);
      assert s in OfLogin(WithoutId(l, id), s.loginId);
      assert DaoQuery(c, DaoDelete(c, db, id), s.loginId).1 == [];
      probe := QueryOp(s.loginId);
    } else {
      var loginId := Find(l, id).value.loginId;
      IndexAfterWithout(l, id, loginId);
      assert db.Members(IKey(c, loginId)) == IndexOf(l, loginId);
      assert db.Get(SKey(c, id)) == Find(l, id);
      FindIsMember(l, s.id);
      FindAfterWithout(l, id, s.id);
      assert !Survives(c, db, id, s.id);
      probe := GetOp(s.id);
    }
  }

  lemma {:induction false} VisitAllLive(c: SaKeys, db: Db, index: Key, ids: seq<string>, found: seq<Session>)
    requires |ids| == |found| && forall i :: 0 <= i < |ids| ==> db.Get(SKey(c, ids[i])) == Some(found[i])
    ensures Visit(c, db, index, ids) == (db, found)
    decreases |ids|
  {
    if ids != [] {
      VisitAllLive(c, db, index, ids[1..], found[1..]);
      assert found == [found[0]] + found[1..];
    }
  }

  lemma DaoQueryRefines(c: SaKeys, db: Db, l: Ledger, loginId: string)
    requires DaoHolds(c, db, l)
    ensures DaoQuery(c, db, loginId) == (db, OfLogin(l, loginId))
  {
    var ids := IndexOf(l, loginId);
    assert db.Members(IKey(c, loginId)) == ids;
    forall i | 0 <= i < |ids| ensures db.Get(SKey(c, ids[i])) == Some(OfLogin(l, loginId)[i]) {
      FindEach(l, loginId, i);
    }
    VisitAllLive(c, db, IKey(c, loginId), ids, OfLogin(l, loginId));
  }

  lemma ElapseRefines(c: SaKeys, db: Db, l: Ledger, ms: nat)
    requires DaoHolds(c, db, l) && db.AllLive() && db.Later(ms).AllLive()
    ensures DaoHolds(c, db.Later(ms), l)
  {
    var after := db.Later(ms);
    forall id ensures after.Get(SKey(c, id)) == Find(l, id) {
      assert db.Get(SKey(c, id)) == Find(l, id);
    }
    forall loginId ensures after.Members(IKey(c, loginId)) == IndexOf(l, loginId) {
      assert db.Members(IKey(c, loginId)) == IndexOf(l, loginId);
    }
  }

  lemma DaoApplyRefines(c: SaKeys, db: Db, l: Ledger, op: Op, owner: string -> string)
    requires DaoHolds(c, db, l) && Owned(l, owner) && (op.SaveOp? ==> op.session.loginId == owner(op.session.id))
    requires op.DeleteOp? ==> !Crosses(l, op.id)
    requires Reads(op) || (db.AllLive() && DaoApply(c, db, op).0.AllLive())
    ensures DaoHolds(c, DaoApply(c, db, op).0, LedgerApply(l, op).0)
    ensures DaoApply(c, db, op).1 == LedgerApply(l, op).1
  {
    match op
    case SaveOp(s, ttl) =>
      FindIsMember(l, s.id);
      DaoSaveRefines(c, db, l, s, ttl);
    case GetOp(_) =>
    case DeleteOp(id) => DaoDeleteRefines(c, db, l, id);
    case QueryOp(loginId) => DaoQueryRefines(c, db, l, loginId);
    case Elapse(ms) => ElapseRefines(c, db, l, ms);
    case Evict(_) =>
  }

  lemma ReadsAgree(c: SaKeys, m: Memory, db: Db, l: Ledger, owner: string -> string)
    requires MemHolds(m, l) && DaoHolds(c, db, l) && Owned(l, owner)
    ensures forall probe :: Reads(probe) ==> MemApply(m, probe).1 == DaoApply(c, db, probe).1
  {
    forall probe | Reads(probe) ensures MemApply(m, probe).1 == DaoApply(c, db, probe).1 {
      MemApplyRefines(m, l, probe, owner);
      DaoApplyRefines(c, db, l, probe, owner);
    }
  }

  // ---------- Whole runs ----------

  lemma {:induction false} MemRunRefines(m: Memory, l: Ledger, ops: seq<Op>, owner: string -> string)
    requires MemHolds(m, l) && Owned(l, owner) && Bound(ops, owner)
    ensures MemAnswers(m, ops) == LedgerAnswers(l, ops)
    decreases |ops|
  {
    if ops != [] {
      MemApplyRefines(m, l, ops[0], owner);
      ApplyKeepsOwned(l, ops[0], owner);
      MemRunRefines(MemApply(m, ops[0]).0, LedgerApply(l, ops[0]).0, ops[1..], owner);
    }
  }

  lemma {:induction false} DaoRunRefines(c: SaKeys, db: Db, l: Ledger, ops: seq<Op>, owner: string -> string)
    requires DaoHolds(c, db, l) && Owned(l, owner) && Bound(ops, owner) && NothingExpires(c, db, ops) && Uncrossed(l, ops)
    ensures DaoAnswers(c, db, ops) == LedgerAnswers(l, ops)
    decreases |ops|
  {
    if ops != [] {
      var next := DaoApply(c, db, ops[0]).0;
      assert NothingExpires(c, next, ops[1..]);
      assert next.AllLive();
      DaoApplyRefines(c, db, l, ops[0], owner);
      ApplyKeepsOwned(l, ops[0], owner);
      DaoRunRefines(c, next, LedgerApply(l, ops[0]).0, ops[1..], owner);
    }
  }

  /** The two backends stay alike over a run exactly when none of its deletes crosses. */
  lemma {:induction false} AlikeExactly(c: SaKeys, m: Memory, db: Db, l: Ledger, ops: seq<Op>, owner: string -> string)
    requires MemHolds(m, l) && DaoHolds(c, db, l) && Owned(l, owner) && Bound(ops, owner) && NothingExpires(c, db, ops)
    ensures Alike(c, m, db, ops) <==> Uncrossed(l, ops)
    decreases |ops|
  {
    ReadsAgree(c, m, db, l, owner);
    if ops != [] {
      var m', db', l' := MemApply(m, ops[0]).0, DaoApply(c, db, ops[0]).0, LedgerApply(l, ops[0]).0;
      assert NothingExpires(c, db', ops[1..]);
      MemApplyRefines(m, l, ops[0], owner);
      ApplyKeepsOwned(l, ops[0], owner);
      if ops[0].DeleteOp? && Crosses(l, ops[0].id) {
        var probe := CrossingIsSeen(c, db, l, ops[0].id);
        MemApplyRefines(m', l', probe, owner);
        assert MemApply(m', probe).1 != DaoApply(c, db', probe).1;
      } else {
        DaoApplyRefines(c, db, l, ops[0], owner);
        AlikeExactly(c, m', db', l', ops[1..], owner);
      }
    }
  }

  lemma {:induction false} PlainIsUncrossed(l: Ledger, ops: seq<Op>)
    requires UniqueIds(l) && PlainIds(ops) && forall s :: s in l ==> Plain(s.id)
    ensures Uncrossed(l, ops)
    decreases |ops|
  {
    if ops != [] {
      var next := LedgerApply(l, ops[0]).0;
      match ops[0] {
        case SaveOp(s, _) => SaveMembers(l, s); SaveKeepsUnique(l, s);
        case DeleteOp(id) => WithoutIdMembers(l, id); WithoutIdKeepsUnique(l, id);
        case _ =>
      }
      PlainIsUncrossed(next, ops[1..]);
    }
  }

  /**
   When nothing expires and each session id keeps its login, every read is answered alike by both
   backends in every state of a run exactly when no delete of the run crosses. Then both answer the
   whole run as one plain list would, order included. Runs whose ids do not start with "index:" qualify.
   */
  lemma BackendsAgree(c: SaKeys, ops: seq<Op>, start: int, owner: string -> string)
    requires Bound(ops, owner) && NothingExpires(c, State(map[], map[], start), ops)
    ensures Alike(c, EMPTY, State(map[], map[], start), ops) <==> Uncrossed([], ops)
    ensures Uncrossed([], ops) ==>
              MemAnswers(EMPTY, ops) == DaoAnswers(c, State(map[], map[], start), ops) == LedgerAnswers([], ops)
    ensures PlainIds(ops) ==> Uncrossed([], ops)
  {
    var empty: Db := State(map[], map[], start);
    AlikeExactly(c, EMPTY, empty, [], ops, owner);
    if Uncrossed([], ops) {
      MemRunRefines(EMPTY, [], ops, owner);
      DaoRunRefines(c, empty, [], ops, owner);
    }
    if PlainIds(ops) {
      PlainIsUncrossed([], ops);
    }
  }

  /** A delete that crosses: any session `s`, and the id that names its login's index. */
  function CrossingRun(s: Session): seq<Op> {
    [SaveOp(s, None), DeleteOp(INDEX + s.loginId), QueryOp(s.loginId)]
  }

  lemma CrossingRunSteps(s: Session)
    ensures CrossingRun(s)[1..] == [DeleteOp(INDEX + s.loginId), QueryOp(s.loginId)]
    ensures CrossingRun(s)[1..][1..] == [QueryOp(s.loginId)] && CrossingRun(s)[1..][1..][1..] == []
  {
  }

  lemma MemoryAnswersCrossing(s: Session)
    requires s.id != INDEX + s.loginId
    ensures MemAnswers(EMPTY, CrossingRun(s)) == [Done, Done, Sessions([s])]
  {
    CrossingRunSteps(s);
    var rest := CrossingRun(s)[1..];
    var m := MemSave(EMPTY, s);
    assert Listed(m, s.loginId) == [s.id];
    CollectFound(m, [s.id], [s]);
    assert MemApply(m, rest[0]) == (m, Done);
    assert MemAnswers(m, rest[1..]) == [Sessions([s])];
    assert MemAnswers(m, rest) == [Done] + MemAnswers(m, rest[1..]);
  }

  lemma DaoAnswersCrossing(c: SaKeys, s: Session, start: int)
    requires s.id != INDEX + s.loginId
    ensures DaoAnswers(c, State(map[], map[], start), CrossingRun(s)) == [Done, Done, Sessions([])]
  {
    CrossingRunSteps(s);
    var rest := CrossingRun(s)[1..];
    var empty: Db := State(map[], map[], start);
    var db := DaoSave(c, empty, s, None);
    var cut := DaoDelete(c, db, INDEX + s.loginId);
    SaveEffect(c, empty, s, None);
    DeleteEffect(c, db, INDEX + s.loginId);
    assert DaoApply(c, db, rest[0]) == (cut, Done);
    assert DaoAnswers(c, cut, rest[1..]) == [Sessions([])];
    assert DaoAnswers(c, db, rest) == [Done] + DaoAnswers(c, cut, rest[1..]);
  }

  /** The in-memory backend still answers the session, the Dao has lost it. */
  lemma IndexIdSplitsBackends(c: SaKeys, s: Session, start: int)
    requires s.id != INDEX + s.loginId
    ensures MemAnswers(EMPTY, CrossingRun(s)) == [Done, Done, Sessions([s])]
    ensures DaoAnswers(c, State(map[], map[], start), CrossingRun(s)) == [Done, Done, Sessions([])]
  {
    MemoryAnswersCrossing(s);
    DaoAnswersCrossing(c, s, start);
  }

  // ---------- The Dao under expiry ----------

  function DaoAfter(c: SaKeys, db: Db, ops: seq<Op>): Db
    decreases |ops|
  {
    if ops == [] then db else DaoAfter(c, DaoApply(c, db, ops[0]).0, ops[1..])
  }

  ghost predicate AlwaysIndexed(c: SaKeys, db: Db, ops: seq<Op>, owner: string -> string)
    decreases |ops|
  {
    Indexed(c, db, owner) && (ops != [] ==> AlwaysIndexed(c, DaoApply(c, db, ops[0]).0, ops[1..], owner))
  }

  /** The operation drops the index of some login with another session that stays live. */
  ghost predicate Cuts(c: SaKeys, db: Db, op: Op, owner: string -> string) {
    match op
    case DeleteOp(id) => CutsIndex(c, db, id, owner)
    case Evict(id) => EvictsIndex(c, db, id, owner)
    case _ => false
  }

  ghost predicate NeverCuts(c: SaKeys, db: Db, ops: seq<Op>, owner: string -> string)
    decreases |ops|
  {
    ops != [] ==> !Cuts(c, db, ops[0], owner) && NeverCuts(c, DaoApply(c, db, ops[0]).0, ops[1..], owner)
  }

  lemma ApplyKeepsIndexed(c: SaKeys, db: Db, op: Op, owner: string -> string)
    requires Indexed(c, db, owner) && (op.SaveOp? ==> op.session.loginId == owner(op.session.id))
    ensures Indexed(c, DaoApply(c, db, op).0, owner) <==> !Cuts(c, db, op, owner)
  {
    match op
    case SaveOp(s, ttl) => SaveKeepsIndexed(c, db, s, ttl, owner);
    case GetOp(_) =>
    case DeleteOp(id) => DeleteKeepsIndexedExactly(c, db, id, owner);
    case QueryOp(loginId) => QueryReturnsLive(c, db, loginId, owner);
    case Elapse(ms) => ElapseKeepsIndexed(c, db, ms, owner);
    case Evict(id) => EvictKeepsIndexedExactly(c, db, id, owner);
  }

  /** With expiry, a run that keeps the binding keeps every live session indexed exactly when no operation cuts an index. */
  lemma {:induction false} DaoRunKeepsIndexed(c: SaKeys, db: Db, ops: seq<Op>, owner: string -> string)
    requires Indexed(c, db, owner) && Bound(ops, owner)
    ensures AlwaysIndexed(c, db, ops, owner) <==> NeverCuts(c, db, ops, owner)
    ensures NeverCuts(c, db, ops, owner) ==> Indexed(c, DaoAfter(c, db, ops), owner)
    decreases |ops|
  {
    if ops != [] {
      ApplyKeepsIndexed(c, db, ops[0], owner);
      var next := DaoApply(c, db, ops[0]).0;
      if Indexed(c, next, owner) {
        DaoRunKeepsIndexed(c, next, ops[1..], owner);
      }
    }
  }

  /** No session is kept under the key of an index. */
  ghost predicate PlainStored(c: SaKeys, db: Db) {
    forall id :: SKey(c, id) in db.scalars ==> Plain(id)
  }

  lemma ApplyKeepsPlain(c: SaKeys, db: Db, op: Op)
    requires PlainStored(c, db) && (op.SaveOp? ==> Plain(op.session.id))
    ensures PlainStored(c, DaoApply(c, db, op).0)
  {
    SessionKeys(c);
    if op.QueryOp? {
      VisitEffect(c, db, IKey(c, op.loginId), db.Members(IKey(c, op.loginId)));
    }
  }

  lemma {:induction false} PlainNeverCuts(c: SaKeys, db: Db, ops: seq<Op>, owner: string -> string)
    requires PlainStored(c, db) && PlainIds(ops)
    ensures NeverCuts(c, db, ops, owner)
    decreases |ops|
  {
    if ops != [] {
      ApplyKeepsPlain(c, db, ops[0]);
      PlainNeverCuts(c, DaoApply(c, db, ops[0]).0, ops[1..], owner);
    }
  }

  /** So after any run whose ids name no index each query answers exactly the live sessions of its login. */
  lemma DaoQueryAfterRun(c: SaKeys, ops: seq<Op>, start: int, loginId: string, owner: string -> string)
    requires Bound(ops, owner) && PlainIds(ops)
    ensures var db := DaoAfter(c, State(map[], map[], start), ops);
            var (after, found) := DaoQuery(c, db, loginId);
            && (forall s :: s in found <==> db.Get(SKey(c, s.id)) == Some(s) && s.loginId == loginId)
            && UniqueIds(found) && after.Members(IKey(c, loginId)) == Ids(found)
  {
    var empty: Db := State(map[], map[], start);
    assert Indexed(c, empty, owner);
    PlainNeverCuts(c, empty, ops, owner);
    DaoRunKeepsIndexed(c, empty, ops, owner);
    QueryReturnsLive(c, DaoAfter(c, empty, ops), loginId, owner);
  }

  function MemAfter(m: Memory, ops: seq<Op>): Memory
    decreases |ops|
  {
    if ops == [] then m else MemAfter(MemApply(m, ops[0]).0, ops[1..])
  }

  /** In every state such a run of the memory reaches, each index lists exactly the sessions of its login. */
  lemma {:induction false} MemRunAgrees(m: Memory, l: Ledger, ops: seq<Op>, owner: string -> string)
    requires MemHolds(m, l) && Owned(l, owner) && Bound(ops, owner)
    ensures Agrees(MemAfter(m, ops))
    decreases |ops|
  {
    if ops == [] {
      HeldAgrees(m, l);
    } else {
      MemApplyRefines(m, l, ops[0], owner);
      ApplyKeepsOwned(l, ops[0], owner);
      MemRunAgrees(MemApply(m, ops[0]).0, LedgerApply(l, ops[0]).0, ops[1..], owner);
    }
  }
}
