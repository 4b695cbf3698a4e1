/** What `find_token` finds over whole runs (sa-token-core/src/temp_token.rs:88-183): exactly when a value's entry is there. */
module TempTokenIndex {
  import opened Wrappers
  import opened Storage
  import opened TempToken
  import opened TempTokenRuns

  /**
   By namespace and value: the newest token created with the index, until that token is deleted or drawn
   again, or a live token of the value is deleted in the namespace.
   */
  type Kept = map<(string, string), string>

  function Forget(kept: Kept, ns: string, token: string): Kept {
    map p | p in kept && !(p.0 == ns && kept[p] == token) :: kept[p]
  }

  function KeptAfter(c: Config, db: Db, op: Op, kept: Kept): Kept {
    match op
    case CreateOp(ns, value, timeout, index, candidates) =>
      (match Created(c, db, ns, value, timeout, index, candidates).1
       case Ok(token) =>
         var others := Forget(kept, ns, token);
         if index && value.Str? then others[(ns, value.text) := token] else others
       case Err(_) => kept)
    case DeleteOp(ns, token) =>
      var others := Forget(kept, ns, token);
      (match RecordAt(db, c.TokenKey(ns, token))
       case Some(TempTokenRecord(Str(value), _, _)) => others - {(ns, value)}
       case _ => others)
    case _ => kept
  }

  /** A kept token's record and its index entry are both stored and expire together; any other entry is not live. */
  ghost predicate Tracked(c: Config, db: Db, kept: Kept, ns: string, value: string) {
    var index := c.ValueKey(ns, value);
    if (ns, value) in kept then
      var token := kept[(ns, value)];
      var body := c.TokenKey(ns, token);
      && ':' !in token && token != ""
      && index in db.scalars && db.scalars[index].value == Plain(token)
      && body in db.scalars && db.scalars[body].value.Body?
      && db.scalars[body].value.record.value == Str(value) && db.scalars[body].value.record.namespace == ns
      && db.scalars[body].expireAt == db.scalars[index].expireAt
    else db.Get(index) == None
  }

  ghost predicate Tracks(c: Config, db: Db, kept: Kept) {
    Housed(c, db) && forall ns, value :: Tracked(c, db, kept, ns, value)
  }

  /** `find_token` finds the kept token as long as that parses, and nothing otherwise. */
  lemma FoundExactly(c: Config, db: Db, kept: Kept, ns: string, value: string)
    requires Tracks(c, db, kept)
    ensures IndexedToken(c, db, ns, value) ==
              if (ns, value) in kept && Parsed(c, db, ns, kept[(ns, value)]).1.Ok? then Some(kept[(ns, value)]) else None
  {
    assert Tracked(c, db, kept, ns, value);
    if (ns, value) in kept {
      var body := c.TokenKey(ns, kept[(ns, value)]);
      var token :| OwnBody(c, body, db.scalars[body], token);
    }
  }

  lemma CreateKeepsTracked(c: Config, db: Db, kept: Kept, op: Op, ns: string, value: string)
    requires Tracks(c, db, kept) && c.DigestInjective() && op.CreateOp? && Drawn(op.candidates)
    ensures Tracked(c, After(c, db, op), KeptAfter(c, db, op, kept), ns, value)
  {
    assert Tracked(c, db, kept, ns, value);
    var result := Created(c, db, op.namespace, op.value, op.timeoutSecs, op.recordIndex, op.candidates).1;
    if result.Ok? {
      FirstFreeIsFree(c, db, op.namespace, op.candidates);
      if op.value.Str? {
        ValueKeyInjective(c, op.namespace, op.value.text, ns, value);
      }
      if (ns, value) in kept {
        TokenKeyInjective(c, op.namespace, result.value, ns, kept[(ns, value)]);
      }
    }
  }

  lemma DeleteKeepsTracked(c: Config, db: Db, kept: Kept, ns: string, token: string, ms: string, value: string)
    requires Tracks(c, db, kept) && c.DigestInjective() && ':' !in token
    ensures Tracked(c, Deleted(c, db, ns, token), KeptAfter(c, db, DeleteOp(ns, token), kept), ms, value)
  {
    assert Tracked(c, db, kept, ms, value);
    if (ms, value) in kept {
      TokenKeyInjective(c, ns, token, ms, kept[(ms, value)]);
    }
    match RecordAt(db, c.TokenKey(ns, token))
    case Some(TempTokenRecord(Str(v), _, _)) =>
      ValueKeyInjective(c, ns, v, ms, value);
    case _ =>
  }

  lemma AfterKeepsTracks(c: Config, db: Db, kept: Kept, op: Op)
    requires Tracks(c, db, kept) && c.DigestInjective() && Proper(op)
    ensures Tracks(c, After(c, db, op), KeptAfter(c, db, op, kept))
  {
    match op
    case CreateOp(ns, value, timeout, index, candidates) =>
      CreateKeepsHoused(c, db, ns, value, timeout, index, candidates);
      forall ms, v ensures Tracked(c, After(c, db, op), KeptAfter(c, db, op, kept), ms, v) {
        CreateKeepsTracked(c, db, kept, op, ms, v);
      }
    case ParseOp(ns, token) => ParseChangesNothing(c, db, ns, token);
    case DeleteOp(ns, token) =>
      DeleteKeepsHoused(c, db, ns, token);
      forall ms, v ensures Tracked(c, Deleted(c, db, ns, token), KeptAfter(c, db, op, kept), ms, v) {
        DeleteKeepsTracked(c, db, kept, ns, token, ms, v);
      }
    case Elapse(ms) =>
      forall ns, v ensures Tracked(c, db.Later(ms), kept, ns, v) {
        assert Tracked(c, db, kept, ns, v);
      }
  }

  function KeptRun(c: Config, db: Db, kept: Kept, ops: seq<Op>): (Db, Kept)
    decreases |ops|
  {
    if ops == [] then (db, kept) else KeptRun(c, After(c, db, ops[0]), KeptAfter(c, db, ops[0], kept), ops[1..])
  }

  lemma {:induction false} RunKeepsTracks(c: Config, db: Db, kept: Kept, ops: seq<Op>)
    requires Tracks(c, db, kept) && c.DigestInjective() && forall i :: 0 <= i < |ops| ==> Proper(ops[i])
    ensures Tracks(c, KeptRun(c, db, kept, ops).0, KeptRun(c, db, kept, ops).1)
    decreases |ops|
  {
    if ops != [] {
      AfterKeepsTracks(c, db, kept, ops[0]);
      RunKeepsTracks(c, After(c, db, ops[0]), KeptAfter(c, db, ops[0], kept), ops[1..]);
    }
  }

  /** So in every state reached from an empty store `find_token` finds a value's kept token exactly while it parses. */
  lemma FoundAfterRun(c: Config, start: int, ops: seq<Op>, ns: string, value: string)
    requires c.DigestInjective() && forall i :: 0 <= i < |ops| ==> Proper(ops[i])
    ensures var (db, kept) := KeptRun(c, State(map[], map[], start), map[], ops);
            IndexedToken(c, db, ns, value) ==
              if (ns, value) in kept && Parsed(c, db, ns, kept[(ns, value)]).1.Ok? then Some(kept[(ns, value)]) else None
  {
    var empty: Db := State(map[], map[], start);
    RunKeepsTracks(c, empty, map[], ops);
    var (db, kept) := KeptRun(c, empty, map[], ops);
    FoundExactly(c, db, kept, ns, value);
  }

  /** Deleting the older of two tokens of a value takes the newer one's entry: it still parses but is not found. */
  lemma OlderDeleteHidesNewer(c: Config, start: int, ns: string, value: string, first: seq<string>, second: seq<string>)
    requires c.DigestInjective() && Drawn(first) && Drawn(second) && ns != "" && first[0] != second[0]
    ensures var one := Created(c, State(map[], map[], start), ns, Str(value), -1, true, first).0;
            var two := Created(c, one, ns, Str(value), -1, true, second).0;
            var after := Deleted(c, two, ns, first[0]);
            && IndexedToken(c, two, ns, value) == Some(second[0])
            && IndexedToken(c, after, ns, value) == None
            && Parsed(c, after, ns, second[0]).1.Ok?
  {
    assert first[0] in first && second[0] in second;
    TokenKeyInjective(c, ns, first[0], ns, second[0]);
  }
}
