/** What the temp-token value index keeps over whole runs, and exactly when a delete breaks it. */
module TempTokenRuns {
  import opened Wrappers
  import opened Storage
  import opened TempToken

  /** Creating a token leaves every stored record as it was. */
  lemma CreateAltersNoRecord(c: Config, db: Db, namespace: string, value: Json, timeoutSecs: int, recordIndex: bool,
                             candidates: seq<string>, key: Key)
    requires key.BodyKey? && db.Get(key).Some?
    ensures var after := Created(c, db, namespace, value, timeoutSecs, recordIndex, candidates).0;
            key in after.scalars && after.scalars[key] == db.scalars[key]
  {
    FirstFreeIsFree(c, db, namespace, candidates);
  }

  lemma {:induction false} FirstFreeIsFree(c: Config, db: Db, namespace: string, candidates: seq<string>)
    ensures match FirstFree(c, db, namespace, candidates)
            case Some(token) => token in candidates && db.Get(c.TokenKey(namespace, token)).None?
            case None => forall t :: t in candidates ==> db.Get(c.TokenKey(namespace, t)).Some?
  {
    if candidates != [] {
      FirstFreeIsFree(c, db, namespace, candidates[1..]);
    }
  }

  /** The newest token created with the index, by namespace and value. */
  type Newest = map<(string, string), string>

  /** A stored record sits under its own namespace and a colon-free token, and expires with its entry. */
  predicate OwnBody(c: Config, key: Key, e: Entry<Value>, token: string) {
    e.value.Body? && ':' !in token && key == c.TokenKey(e.value.record.namespace, token)
    && e.expireAt == e.value.record.expireAt
  }

  ghost predicate Housed(c: Config, db: Db) {
    forall k :: k in db.scalars && k.BodyKey? ==> exists token :: OwnBody(c, k, db.scalars[k], token)
  }

  /** If the value has a live index entry, it names the newest indexed token, whose record is stored and lives as long. */
  ghost predicate IndexSound(c: Config, db: Db, newest: Newest, ns: string, value: string) {
    var index := c.ValueKey(ns, value);
    index in db.scalars && db.scalars[index].Live(db.now) ==>
      && (ns, value) in newest
      && var token := newest[(ns, value)];
         var body := c.TokenKey(ns, token);
         && db.scalars[index].value == Plain(token) && ':' !in token
         && body in db.scalars && db.scalars[body].value.Body?
         && db.scalars[body].value.record.value == Str(value) && db.scalars[body].value.record.namespace == ns
         && db.scalars[body].expireAt == db.scalars[index].expireAt
  }

  ghost predicate Sound(c: Config, db: Db, newest: Newest) {
    Housed(c, db) && forall ns, value :: IndexSound(c, db, newest, ns, value)
  }

  /** What a caller gets from a sound index: a token that parses to a record of that value. */
  lemma FoundTokenParses(c: Config, db: Db, newest: Newest, ns: string, value: string, token: string)
    requires Sound(c, db, newest) && IndexedToken(c, db, ns, value) == Some(token) && token != ""
    ensures (ns, value) in newest && newest[(ns, value)] == token
    ensures Parsed(c, db, ns, token).1.Ok? && Parsed(c, db, ns, token).1.value.value == Str(value)
  {
    assert IndexSound(c, db, newest, ns, value);
    var body := c.TokenKey(ns, token);
    var t :| OwnBody(c, body, db.scalars[body], t);
  }

  datatype Op =
    | CreateOp(namespace: string, value: Json, timeoutSecs: int, recordIndex: bool, candidates: seq<string>)
    | ParseOp(namespace: string, token: string)
    | DeleteOp(namespace: string, token: string)
    | Elapse(ms: nat)

  function After(c: Config, db: Db, op: Op): Db {
    match op
    case CreateOp(ns, value, timeout, index, candidates) => Created(c, db, ns, value, timeout, index, candidates).0
    case ParseOp(ns, token) => Parsed(c, db, ns, token).0
    case DeleteOp(ns, token) => Deleted(c, db, ns, token)
    case Elapse(ms) => db.Later(ms)
  }

  function NewestAfter(c: Config, db: Db, op: Op, newest: Newest): Newest {
    match op
    case CreateOp(ns, Str(value), timeout, true, candidates) =>
      (match Created(c, db, ns, Str(value), timeout, true, candidates).1
       case Ok(token) => newest[(ns, value) := token]
       case Err(_) => newest)
    case _ => newest
  }

  // ---------- Create ----------

  lemma CreateKeepsHoused(c: Config, db: Db, ns: string, value: Json, timeoutSecs: int, index: bool, candidates: seq<string>)
    requires Housed(c, db) && Drawn(candidates)
    ensures Housed(c, Created(c, db, ns, value, timeoutSecs, index, candidates).0)
  {
    var (after, result) := Created(c, db, ns, value, timeoutSecs, index, candidates);
    if result.Ok? {
      FirstFreeIsFree(c, db, ns, candidates);
      var key := c.TokenKey(ns, result.value);
      assert OwnBody(c, key, after.scalars[key], result.value);
      forall k | k in after.scalars && k.BodyKey? ensures exists token :: OwnBody(c, k, after.scalars[k], token) {
        if k != key {
          var token :| OwnBody(c, k, db.scalars[k], token);
          assert OwnBody(c, k, after.scalars[k], token);
        }
      }
    }
  }

  lemma CreateKeepsIndexSound(c: Config, db: Db, newest: Newest, op: Op, ns: string, value: string)
    requires Sound(c, db, newest) && c.DigestInjective() && op.CreateOp? && Drawn(op.candidates)
    ensures IndexSound(c, After(c, db, op), NewestAfter(c, db, op, newest), ns, value)
  {
    assert IndexSound(c, db, newest, ns, value);
    var (after, result) := Created(c, db, op.namespace, op.value, op.timeoutSecs, op.recordIndex, op.candidates);
    if result.Ok? {
      FirstFreeIsFree(c, db, op.namespace, op.candidates);
      if op.value.Str? {
        ValueKeyInjective(c, op.namespace, op.value.text, ns, value);
      }
    }
  }

  // ---------- Parse and the clock ----------

  /** Parsing never has to evict: a record expires with its entry. */
  lemma ParseChangesNothing(c: Config, db: Db, ns: string, token: string)
    requires Housed(c, db)
    ensures Parsed(c, db, ns, token).0 == db
  {
    var key := c.TokenKey(ns, token);
    if key in db.scalars {
      var t :| OwnBody(c, key, db.scalars[key], t);
    }
  }

  lemma ElapseKeepsSound(c: Config, db: Db, newest: Newest, ms: nat)
    requires Sound(c, db, newest)
    ensures Sound(c, db.Later(ms), newest)
  {
    forall ns, value ensures IndexSound(c, db.Later(ms), newest, ns, value) {
      assert IndexSound(c, db, newest, ns, value);
    }
  }

  // ---------- Delete ----------

  /**
   The token text reaches into another namespace: the record under the key belongs to a different
   namespace, and that namespace's index currently leads to it.
   */
  predicate Crosses(c: Config, db: Db, ns: string, token: string) {
    var key := c.TokenKey(ns, token);
    match RecordAt(db, key)
    case Some(TempTokenRecord(Str(value), owner, _)) =>
      owner != ns
      && (match IndexedToken(c, db, owner, value) case Some(named) => c.TokenKey(owner, named) == key case None => false)
    case _ => false
  }

  lemma DeleteKeepsHoused(c: Config, db: Db, ns: string, token: string)
    requires Housed(c, db)
    ensures Housed(c, Deleted(c, db, ns, token))
  {
    var after := Deleted(c, db, ns, token);
    forall k | k in after.scalars && k.BodyKey? ensures exists t :: OwnBody(c, k, after.scalars[k], t) {
      var t :| OwnBody(c, k, db.scalars[k], t);
      assert OwnBody(c, k, after.scalars[k], t);
    }
  }

  lemma DeleteKeepsIndexSound(c: Config, db: Db, newest: Newest, ns: string, token: string, ms: string, value: string)
    requires Sound(c, db, newest) && c.DigestInjective() && !Crosses(c, db, ns, token)
    ensures IndexSound(c, Deleted(c, db, ns, token), newest, ms, value)
  {
    assert IndexSound(c, db, newest, ms, value);
    var key := c.TokenKey(ns, token);
    match RecordAt(db, key)
    case Some(TempTokenRecord(Str(v), owner, _)) =>
      ValueKeyInjective(c, ns, v, ms, value);
    case _ =>
  }

  lemma CrossingBreaks(c: Config, db: Db, newest: Newest, ns: string, token: string)
    requires Sound(c, db, newest) && c.DigestInjective() && Crosses(c, db, ns, token)
    ensures !Sound(c, Deleted(c, db, ns, token), newest)
  {
    var key := c.TokenKey(ns, token);
    var r := RecordAt(db, key).value;
    var after := Deleted(c, db, ns, token);
    ValueKeyInjective(c, ns, r.value.text, r.namespace, r.value.text);
    assert IndexSound(c, db, newest, r.namespace, r.value.text);
    assert !IndexSound(c, after, newest, r.namespace, r.value.text);
  }

  /** A delete keeps the index sound exactly when it does not cross namespaces. */
  lemma DeleteSoundExactly(c: Config, db: Db, newest: Newest, ns: string, token: string)
    requires Sound(c, db, newest) && c.DigestInjective()
    ensures Sound(c, Deleted(c, db, ns, token), newest) <==> !Crosses(c, db, ns, token)
    ensures ':' !in token ==> !Crosses(c, db, ns, token)
  {
    DeleteKeepsHoused(c, db, ns, token);
    if Crosses(c, db, ns, token) {
      CrossingBreaks(c, db, newest, ns, token);
      if ':' !in token {
        ColonFreeStaysHome(c, db, ns, token);
      }
    } else {
      forall ms, value ensures IndexSound(c, Deleted(c, db, ns, token), newest, ms, value) {
        DeleteKeepsIndexSound(c, db, newest, ns, token, ms, value);
      }
    }
  }

  lemma ColonFreeStaysHome(c: Config, db: Db, ns: string, token: string)
    requires Housed(c, db) && ':' !in token && c.TokenKey(ns, token) in db.scalars
    ensures db.scalars[c.TokenKey(ns, token)].value.Body? && db.scalars[c.TokenKey(ns, token)].value.record.namespace == ns
  {
    var key := c.TokenKey(ns, token);
    var t :| OwnBody(c, key, db.scalars[key], t);
    TokenKeyInjective(c, ns, token, db.scalars[key].value.record.namespace, t);
  }

  // ---------- Whole runs ----------

  predicate Proper(op: Op) {
    match op
    case CreateOp(_, _, _, _, candidates) => Drawn(candidates)
    case DeleteOp(_, token) => ':' !in token
    case _ => true
  }

  function RunAfter(c: Config, db: Db, newest: Newest, ops: seq<Op>): (Db, Newest)
    decreases |ops|
  {
    if ops == [] then (db, newest)
    else RunAfter(c, After(c, db, ops[0]), NewestAfter(c, db, ops[0], newest), ops[1..])
  }

  lemma AfterKeepsSound(c: Config, db: Db, newest: Newest, op: Op)
    requires Sound(c, db, newest) && c.DigestInjective() && Proper(op)
    ensures Sound(c, After(c, db, op), NewestAfter(c, db, op, newest))
  {
    match op
    case CreateOp(ns, value, timeout, index, candidates) =>
      CreateKeepsHoused(c, db, ns, value, timeout, index, candidates);
      forall ms, v ensures IndexSound(c, After(c, db, op), NewestAfter(c, db, op, newest), ms, v) {
        CreateKeepsIndexSound(c, db, newest, op, ms, v);
      }
    case ParseOp(ns, token) => ParseChangesNothing(c, db, ns, token);
    case DeleteOp(ns, token) => DeleteSoundExactly(c, db, newest, ns, token);
    case Elapse(ms) => ElapseKeepsSound(c, db, newest, ms);
  }

  /**
   In every reachable state a value's index entry is absent or names the newest indexed token of that
   value and namespace, whose record is still stored.
   */
  lemma {:induction false} RunKeepsSound(c: Config, db: Db, newest: Newest, ops: seq<Op>)
    requires Sound(c, db, newest) && c.DigestInjective() && forall i :: 0 <= i < |ops| ==> Proper(ops[i])
    ensures Sound(c, RunAfter(c, db, newest, ops).0, RunAfter(c, db, newest, ops).1)
    decreases |ops|
  {
    if ops != [] {
      AfterKeepsSound(c, db, newest, ops[0]);
      RunKeepsSound(c, After(c, db, ops[0]), NewestAfter(c, db, ops[0], newest), ops[1..]);
    }
  }

  /** So it is in every state a run from an empty store reaches. */
  lemma ReachableIsSound(c: Config, start: int, ops: seq<Op>)
    requires c.DigestInjective() && forall i :: 0 <= i < |ops| ==> Proper(ops[i])
    ensures Sound(c, RunAfter(c, State(map[], map[], start), map[], ops).0, RunAfter(c, State(map[], map[], start), map[], ops).1)
  {
    RunKeepsSound(c, State(map[], map[], start), map[], ops);
  }

  /** The crossing happens: deleting token "b:x" of namespace "a" removes token "x" of "a:b" but not its index entry. */
  lemma CrossingDelete(c: Config, start: int, candidates: seq<string>)
    requires c.DigestInjective() && Drawn(candidates) && candidates[0] == "x"
    ensures var created := Created(c, State(map[], map[], start), "a:b", Str("v"), -1, true, candidates);
            var after := Deleted(c, created.0, "a", "b:x");
            && created.1 == Ok("x")
            && IndexedToken(c, after, "a:b", "v") == Some("x")
            && Parsed(c, after, "a:b", "x").1 == Err(TempTokenNotFound)
  {
    var db: Db := State(map[], map[], start);
    var created := Created(c, db, "a:b", Str("v"), -1, true, candidates);
    assert candidates[0] == "x" && db.Get(c.TokenKey("a:b", "x")).None?;
    SameText(c);
    ValueKeyInjective(c, "a", "v", "a:b", "v");
    assert "a" != "a:b";
  }

  lemma SameText(c: Config)
    ensures c.TokenKey("a", "b:x") == c.TokenKey("a:b", "x")
  {
    c.keys.GlobalSplits("temp-token:" + "a", "b:x");
    c.keys.GlobalSplits("temp-token:" + "a:b", "x");
    var h := c.keys.Head();
    assert "temp-token:" + "a:b" == "temp-token:" + "a" + ":" + "b";
    assert "b:x" == "b" + ":" + "x";
    assert h + ("temp-token:" + "a") + ":" + ("b" + ":" + "x") == h + ("temp-token:" + "a" + ":" + "b") + ":" + "x";
  }

  // ---------- What one call does ----------

  lemma {:induction false} FirstFreeIsFirst(c: Config, db: Db, ns: string, candidates: seq<string>) returns (i: nat)
    requires FirstFree(c, db, ns, candidates).Some?
    ensures i < |candidates| && FirstFree(c, db, ns, candidates) == Some(candidates[i])
    ensures db.Get(c.TokenKey(ns, candidates[i])).None?
    ensures forall j :: 0 <= j < i ==> db.Get(c.TokenKey(ns, candidates[j])).Some?
  {
    if db.Get(c.TokenKey(ns, candidates[0])).None? {
      i := 0;
    } else {
      var k := FirstFreeIsFirst(c, db, ns, candidates[1..]);
      i := k + 1;
    }
  }

  /** `token` is the first candidate whose key is free. */
  ghost predicate FirstOf(c: Config, db: Db, ns: string, candidates: seq<string>, token: string) {
    exists i :: 0 <= i < |candidates| && candidates[i] == token && db.Get(c.TokenKey(ns, token)).None?
      && forall j :: 0 <= j < i ==> db.Get(c.TokenKey(ns, candidates[j])).Some?
  }

  /** A create succeeds exactly with a namespace, a timeout other than zero and one of its twelve draws free; else nothing changes. */
  lemma CreatedExactly(c: Config, db: Db, ns: string, value: Json, timeoutSecs: int, recordIndex: bool, candidates: seq<string>)
    requires |candidates| == 12
    ensures var (after, r) := Created(c, db, ns, value, timeoutSecs, recordIndex, candidates);
            && (r.Ok? <==> ns != "" && timeoutSecs != 0 && exists t :: t in candidates && db.Get(c.TokenKey(ns, t)).None?)
            && (r.Ok? ==> FirstOf(c, db, ns, candidates, r.value))
            && (r.Err? ==> r.error == ConfigError && after == db)
    ensures (forall t :: t in candidates ==> t != "" && ':' !in t) ==> Drawn(candidates)
  {
    FirstFreeIsFree(c, db, ns, candidates);
    if FirstFree(c, db, ns, candidates).Some? {
      var i := FirstFreeIsFirst(c, db, ns, candidates);
    }
  }

  predicate ParsesTo(c: Config, db: Db, ns: string, token: string, value: Json) {
    var r := Parsed(c, db, ns, token).1;
    r.Ok? && r.value.value == value && r.value.namespace == ns
  }

  /**
   The token parses, to the value and namespace it was created with, exactly until the timeout has
   passed, or for ever when that is negative; its value's index entry, if asked for, lasts as long.
   */
  lemma CreatedLasts(c: Config, db: Db, ns: string, value: Json, timeoutSecs: int, recordIndex: bool, candidates: seq<string>, ms: nat)
    requires Drawn(candidates) && Created(c, db, ns, value, timeoutSecs, recordIndex, candidates).1.Ok?
    ensures var (after, r) := Created(c, db, ns, value, timeoutSecs, recordIndex, candidates);
            var later := after.Later(ms);
            var lasts := timeoutSecs < 0 || ms < 1000 * timeoutSecs;
            && (lasts ==> ParsesTo(c, later, ns, r.value, value))
            && (!lasts ==> Parsed(c, later, ns, r.value).1 == Err(TempTokenNotFound))
            && (recordIndex && value.Str? ==> IndexedToken(c, later, ns, value.text) == if lasts then Some(r.value) else None)
            && (!recordIndex ==> forall ms, v :: IndexedToken(c, after, ms, v) == IndexedToken(c, db, ms, v))
  {
    FirstFreeIsFree(c, db, ns, candidates);
  }

  /** Parsing refuses the empty token and an absent one, evicts one past its own expiry, and otherwise returns the record. */
  lemma ParsedExactly(c: Config, db: Db, ns: string, token: string)
    ensures var (after, r) := Parsed(c, db, ns, token);
            var stored := RecordAt(db, c.TokenKey(ns, token));
            && (r == Err(TempTokenNotFound) <==> token == "" || stored.None?)
            && (r == Err(TempTokenExpired) <==>
                  token != "" && stored.Some? && stored.value.expireAt.Some? && stored.value.expireAt.value < db.now)
            && (r.Ok? ==> stored == Some(r.value))
            && (r == Err(TempTokenExpired) ==> RecordAt(after, c.TokenKey(ns, token)).None?)
            && (r != Err(TempTokenExpired) ==> after == db)
  {
  }

  /** A deleted token does not parse. */
  lemma DeletedIsGone(c: Config, db: Db, ns: string, token: string)
    ensures Parsed(c, Deleted(c, db, ns, token), ns, token).1 == Err(TempTokenNotFound)
  {
  }
}
