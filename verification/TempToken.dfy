/** Short-lived tokens with a value index (sa-token-core/src/temp_token.rs). */
module TempToken {
  import opened Wrappers
  import opened Storage
  import Keys

  /** A JSON value: a string, or anything else. */
  datatype Json = Str(text: string) | Other(id: int)

  datatype TempTokenRecord = TempTokenRecord(value: Json, namespace: string, expireAt: Option<int>)

  datatype Value = Body(record: TempTokenRecord) | Plain(token: string)

  datatype Key = BodyKey(text: string) | IndexKey(text: string)

  datatype Error = ConfigError | TempTokenNotFound | TempTokenExpired

  type Db = State<Key, Value>

  const DRAWS: nat := 12

  /** The key builder and SHA-256 in hex, of which only injectivity and the absence of colons matter. */
  datatype Config = Config(keys: Keys.SaKeys, digest: string -> string) {

    function TokenKey(namespace: string, token: string): Key {
      BodyKey(keys.Global("temp-token:" + namespace, token, None))
    }

    function ValueKey(namespace: string, value: string): Key {
      IndexKey(keys.Global("temp-index:" + namespace, digest(value), None))
    }

    ghost predicate DigestInjective() {
      && (forall v, w :: digest(v) == digest(w) ==> v == w)
      && (forall v :: ':' !in digest(v))
    }
  }

  function RecordAt(db: Db, key: Key): Option<TempTokenRecord> {
    match db.Get(key)
    case Some(Body(r)) => Some(r)
    case _ => None
  }

  function IndexedToken(c: Config, db: Db, namespace: string, value: string): Option<string> {
    match db.Get(c.ValueKey(namespace, value))
    case Some(Plain(token)) => Some(token)
    case _ => None
  }

  // ---------- The operations as functions of the store ----------

  /** What `random_hex(32)` gives. */
  predicate Drawn(candidates: seq<string>) {
    |candidates| == DRAWS && forall t :: t in candidates ==> t != "" && ':' !in t
  }

  function FirstFree(c: Config, db: Db, namespace: string, candidates: seq<string>): Option<string> {
    if candidates == [] then None
    else if db.Get(c.TokenKey(namespace, candidates[0])).None? then Some(candidates[0])
    else FirstFree(c, db, namespace, candidates[1..])
  }

  function Lifetime(timeoutSecs: int): Option<nat>
    requires timeoutSecs != 0
  {
    if timeoutSecs < 0 then None else Some(1000 * timeoutSecs)
  }

  function NewRecord(now: int, namespace: string, value: Json, timeoutSecs: int): TempTokenRecord
    requires timeoutSecs != 0
  {
    TempTokenRecord(value, namespace, Deadline(now, Lifetime(timeoutSecs)))
  }

  function Created(c: Config, db: Db, namespace: string, value: Json, timeoutSecs: int, recordIndex: bool,
                   candidates: seq<string>): (Db, Result<string, Error>)
  {
    if namespace == "" || timeoutSecs == 0 then (db, Err(ConfigError))
    else
      match FirstFree(c, db, namespace, candidates)
      case None => (db, Err(ConfigError))
      case Some(token) =>
        var ttl := Lifetime(timeoutSecs);
        var stored := db.Put(c.TokenKey(namespace, token), Body(NewRecord(db.now, namespace, value, timeoutSecs)), ttl);
        (if recordIndex && value.Str? then stored.Put(c.ValueKey(namespace, value.text), Plain(token), ttl) else stored,
         Ok(token))
  }

  function Parsed(c: Config, db: Db, namespace: string, token: string): (Db, Result<TempTokenRecord, Error>) {
    if token == "" then (db, Err(TempTokenNotFound))
    else
      match RecordAt(db, c.TokenKey(namespace, token))
      case None => (db, Err(TempTokenNotFound))
      case Some(r) =>
        if r.expireAt.Some? && r.expireAt.value < db.now
        then (db.Without(c.TokenKey(namespace, token)), Err(TempTokenExpired))
        else (db, Ok(r))
  }

  function Deleted(c: Config, db: Db, namespace: string, token: string): Db {
    match RecordAt(db, c.TokenKey(namespace, token))
    case Some(TempTokenRecord(Str(value), _, _)) =>
      db.Without(c.ValueKey(namespace, value)).Without(c.TokenKey(namespace, token))
    case _ => db.Without(c.TokenKey(namespace, token))
  }

  class TempTokenManager {
    const dao: Store<Key, Value>
    const config: Config

    constructor (dao: Store<Key, Value>, config: Config)
      ensures this.dao == dao && this.config == config
    {
      this.dao, this.config := dao, config;
    }

    method GetRecord(key: Key) returns (r: Option<TempTokenRecord>)
      ensures r == RecordAt(dao.View(), key)
    {
      var raw := dao.Get(key);
      r := match raw case Some(Body(record)) => Some(record) case _ => None;
    }

    method Create(namespace: string, value: Json, timeoutSecs: int, recordIndex: bool, candidates: seq<string>)
      returns (r: Result<string, Error>)
      requires Drawn(candidates)
      modifies dao
      ensures (dao.View(), r) == Created(config, old(dao.View()), namespace, value, timeoutSecs, recordIndex, candidates)
    {
      if namespace == "" || timeoutSecs == 0 {
        return Err(ConfigError);
      }
      var ttl := Lifetime(timeoutSecs);
      var record := NewRecord(dao.now, namespace, value, timeoutSecs);
      var token := "";
      var i := 0;
      while i < DRAWS
        invariant 0 <= i <= DRAWS
        invariant dao.View() == old(dao.View()) && token == ""
        invariant FirstFree(config, dao.View(), namespace, candidates) == FirstFree(config, dao.View(), namespace, candidates[i..])
      {
        var candidate := candidates[i];
        var inserted := dao.SetIfAbsent(config.TokenKey(namespace, candidate), Body(record), ttl);
        assert candidate in candidates;
        if inserted {
          token := candidate;
          break;
        }
        assert candidates[i..][1..] == candidates[i + 1..];
        i := i + 1;
      }
      if token == "" {
        assert candidates[i..] == [];
        return Err(ConfigError);
      }
      if recordIndex {
        match value {
          case Str(text) => dao.Set(config.ValueKey(namespace, text), Plain(token), ttl);
          case Other(_) =>
        }
      }
      r := Ok(token);
    }

    method Parse(namespace: string, token: string) returns (r: Result<TempTokenRecord, Error>)
      modifies dao
      ensures (dao.View(), r) == Parsed(config, old(dao.View()), namespace, token)
    {
      if token == "" {
        return Err(TempTokenNotFound);
      }
      var found := GetRecord(config.TokenKey(namespace, token));
      if found.None? {
        return Err(TempTokenNotFound);
      }
      if found.value.expireAt.Some? && dao.now > found.value.expireAt.value {
        dao.Delete(config.TokenKey(namespace, token));
        return Err(TempTokenExpired);
      }
      r := Ok(found.value);
    }

    method FindToken(namespace: string, value: string) returns (r: Result<string, Error>)
      ensures r == match IndexedToken(config, dao.View(), namespace, value)
                   case Some(token) => Ok(token) case None => Err(TempTokenNotFound)
    {
      var raw := dao.Get(config.ValueKey(namespace, value));
      r := match raw case Some(Plain(token)) => Ok(token) case _ => Err(TempTokenNotFound);
    }

    method Delete(namespace: string, token: string)
      modifies dao
      ensures dao.View() == Deleted(config, old(dao.View()), namespace, token)
    {
      var found := GetRecord(config.TokenKey(namespace, token));
      match found {
        case Some(TempTokenRecord(Str(value), _, _)) => dao.Delete(config.ValueKey(namespace, value));
        case _ =>
      }
      dao.Delete(config.TokenKey(namespace, token));
    }
  }

  // ---------- Keys ----------

  /** Keys with a colon-free last part coincide only when both parts do. */
  lemma GlobalInjective(keys: Keys.SaKeys, prefix: string, ns: string, x: string, ms: string, y: string)
    requires ':' !in x && ':' !in y
    ensures keys.Global(prefix + ns, x, None) == keys.Global(prefix + ms, y, None) <==> ns == ms && x == y
  {
    keys.GlobalSplits(prefix + ns, x);
    keys.GlobalSplits(prefix + ms, y);
    if keys.Global(prefix + ns, x, None) == keys.Global(prefix + ms, y, None) {
      Keys.SameLastColon(keys.Head() + (prefix + ns), x, keys.Head() + (prefix + ms), y);
      var n := |keys.Head()| + |prefix|;
      assert (keys.Head() + (prefix + ns))[n..] == ns && (keys.Head() + (prefix + ms))[n..] == ms;
    }
  }

  lemma TokenKeyInjective(c: Config, ns: string, x: string, ms: string, y: string)
    requires ':' !in x && ':' !in y
    ensures c.TokenKey(ns, x) == c.TokenKey(ms, y) <==> ns == ms && x == y
  {
    GlobalInjective(c.keys, "temp-token:", ns, x, ms, y);
  }

  lemma ValueKeyInjective(c: Config, ns: string, v: string, ms: string, w: string)
    requires c.DigestInjective()
    ensures c.ValueKey(ns, v) == c.ValueKey(ms, w) <==> ns == ms && v == w
  {
    GlobalInjective(c.keys, "temp-index:", ns, c.digest(v), ms, c.digest(w));
  }
}
