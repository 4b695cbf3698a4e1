/**
 Refresh tokens (sa-token-core/src/refresh.rs), with the writes of the token repository they make
 (sa-token-core/src/repository/token_repo.rs:78-274). Refresh records and the per-account index of
 refresh tokens are kept under the texts the key builder gives, because `refresh:` and `refresh:user:`
 nest. The other keys are told apart by kind, which `RefreshKeys` justifies; account keys are text.
 */
module RefreshTokens {
  import opened Wrappers
  import opened Storage
  import Keys

  datatype Key =
    | Refresh(text: string)
    | TokenBody(token: string)
    | TokenId(token: string)
    | LoginToken(account: string)
    | LoginIndex(account: string)

  /** The RFC 3339 text of an expiry: absent, a time, or something that does not parse. */
  datatype Expiry = Never | At(ms: int) | Garbled

  datatype RefreshRecord = RefreshRecord(
    accessToken: string,
    loginId: string,
    expireTime: Expiry,
    refreshedAt: Option<int>,
    extra: Option<string>)

  datatype TokenInfo = TokenInfo(
    token: string,
    loginId: string,
    activeTime: int,
    refreshToken: string,
    refreshExpire: Option<int>,
    extra: Option<string>,
    expireTime: Option<int>)

  datatype Value =
    | Record(record: RefreshRecord)
    | Body(info: TokenInfo)
    | Identity(loginType: string, loginId: string)
    | Plain(token: string)

  datatype Error = RefreshTokenNotFound | RefreshTokenMissingLoginId | RefreshTokenInvalidExpireTime | TokenExpired

  type Db = State<Key, Value>

  datatype Config = Config(timeout: int, refreshTimeout: int, keys: Keys.SaKeys) {

    /** `timeout_duration`: negative means permanent, zero a TTL of zero. */
    function AccessTtl(): Option<nat> {
      if timeout < 0 then None else Some(1000 * timeout)
    }

    function RefreshTtl(): Option<nat> {
      Ttl(refreshTimeout)
    }

    function RefreshKey(refreshToken: string): Key {
      Refresh(keys.Global("refresh", refreshToken, None))
    }

    function IndexOf(loginType: string, loginId: string): Key {
      Refresh(keys.Account("refresh:user", loginType, loginId))
    }

    lemma RefreshKeysApart()
      ensures forall a, b :: RefreshKey(a) == RefreshKey(b) ==> a == b
    {
      forall a, b ensures RefreshKey(a) == RefreshKey(b) ==> a == b {
        keys.SameCategory("refresh", a, b);
      }
    }

    function LoginTokenKey(loginId: string): Key {
      LoginToken(keys.Account("login:token", Keys.LOGIN_TYPE_DEFAULT, loginId))
    }

    function LoginIndexKey(loginId: string): Key {
      LoginIndexOf(Keys.LOGIN_TYPE_DEFAULT, loginId)
    }

    function LoginIndexOf(loginType: string, loginId: string): Key {
      LoginIndex(keys.Account("login:tokens", loginType, loginId))
    }
  }

  /** The record under a refresh token; a key of one kind never holds a value of another. */
  function Stored(c: Config, db: Db, rt: string): Option<RefreshRecord> {
    match db.Get(c.RefreshKey(rt))
    case Some(Record(r)) => Some(r)
    case _ => None
  }

  // ---------- The operations as functions of the store ----------

  function StoreRefresh(c: Config, db: Db, rt: string, access: string, loginType: string, loginId: string,
                        extra: Option<string>): Db
  {
    var expiry := if c.refreshTimeout > 0 then At(db.now + 1000 * c.refreshTimeout) else Never;
    db.Put(c.RefreshKey(rt), Record(RefreshRecord(access, loginId, expiry, None, extra)), c.RefreshTtl())
      .Pushed(c.IndexOf(loginType, loginId), rt, None)
  }

  function DeleteRefresh(c: Config, db: Db, rt: string): Db {
    match Stored(c, db, rt)
    case Some(r) => db.Pulled(c.IndexOf(Keys.LOGIN_TYPE_DEFAULT, r.loginId), rt).Without(c.RefreshKey(rt))
    case None => db.Without(c.RefreshKey(rt))
  }

  function Validate(c: Config, db: Db, rt: string): (Db, Result<string, Error>) {
    match Stored(c, db, rt)
    case None => (db, Err(RefreshTokenNotFound))
    case Some(r) =>
      if r.loginId == "" then (db, Err(RefreshTokenMissingLoginId))
      else
        match r.expireTime
        case Never => (db, Ok(r.loginId))
        case Garbled => (db, Err(RefreshTokenInvalidExpireTime))
        case At(t) => if t < db.now then (DeleteRefresh(c, db, rt), Err(TokenExpired)) else (db, Ok(r.loginId))
  }

  datatype Write =
    | Put(key: Key, value: Value, ttl: Option<nat>)
    | Drop(key: Key)
    | Pull(key: Key, member: string)
    | Push(key: Key, member: string, ttl: Option<nat>)
    | Skip

  function Apply(db: Db, w: Write): Db {
    match w
    case Put(key, value, ttl) => db.Put(key, value, ttl)
    case Drop(key) => db.Without(key)
    case Pull(key, member) => db.Pulled(key, member)
    case Push(key, member, ttl) => db.Pushed(key, member, ttl)
    case Skip => db
  }

  function NewInfo(c: Config, now: int, rt: string, r: RefreshRecord, next: string): TokenInfo {
    TokenInfo(next, r.loginId, now, rt,
              if c.refreshTimeout > 0 then Some(now + 1000 * c.refreshTimeout) else None,
              r.extra, Deadline(now, c.AccessTtl()))
  }

  const WRITES: nat := 8

  /** The `i`-th write of a refresh that replaces the access token of `r` by `next`. */
  function WriteAt(c: Config, now: int, rt: string, r: RefreshRecord, next: string, i: nat): Write
    requires i < WRITES
  {
    match i
    case 0 => Put(TokenBody(next), Body(NewInfo(c, now, rt, r, next)), c.AccessTtl())
    case 1 => Put(TokenId(next), Identity(Keys.LOGIN_TYPE_DEFAULT, r.loginId), c.AccessTtl())
    case 2 => Put(c.LoginTokenKey(r.loginId), Plain(next), c.AccessTtl())
    case 3 => if r.accessToken == next then Skip else Pull(c.LoginIndexKey(r.loginId), r.accessToken)
    case 4 => if r.accessToken == next then Skip else Push(c.LoginIndexKey(r.loginId), next, c.AccessTtl())
    case 5 => Drop(TokenBody(r.accessToken))
    case 6 => Drop(TokenId(r.accessToken))
    case _ => Put(c.RefreshKey(rt), Record(r.(accessToken := next, refreshedAt := Some(now))), c.RefreshTtl())
  }

  /** The store after the first `n` writes of a refresh: where a crash may leave it. */
  function Stage(c: Config, db: Db, rt: string, r: RefreshRecord, next: string, n: nat): Db
    requires n <= WRITES
  {
    if n == 0 then db else Apply(Stage(c, db, rt, r, next, n - 1), WriteAt(c, db.now, rt, r, next, n - 1))
  }

  /** A refresh that runs to its end; `next` is the generated access token. */
  function Refreshed(c: Config, db: Db, rt: string, next: string): (Db, Result<string, Error>) {
    match Validate(c, db, rt)
    case (after, Err(e)) => (after, Err(e))
    case (after, Ok(_)) =>
      match Stored(c, after, rt)
      case None => (after, Err(RefreshTokenNotFound))
      case Some(r) => (Stage(c, after, rt, r, next, WRITES), Ok(next))
  }

  function DeleteEach(c: Config, db: Db, tokens: seq<string>): Db
    decreases |tokens|
  {
    if tokens == [] then db else DeleteEach(c, DeleteRefresh(c, db, tokens[0]), tokens[1..])
  }

  function RevokeAll(c: Config, db: Db, loginType: string, loginId: string): Db {
    var index := c.IndexOf(loginType, loginId);
    DeleteEach(c, db, db.Members(index)).Without(index)
  }

  lemma {:induction false} DeleteOneMore(c: Config, db: Db, tokens: seq<string>, rt: string)
    ensures DeleteEach(c, db, tokens + [rt]) == DeleteRefresh(c, DeleteEach(c, db, tokens), rt)
    decreases |tokens|
  {
    if tokens == [] {
      assert tokens + [rt] == [rt] && [rt][1..] == [];
    } else {
      DeleteOneMore(c, DeleteRefresh(c, db, tokens[0]), tokens[1..], rt);
      assert (tokens + [rt])[1..] == tokens[1..] + [rt];
    }
  }

  class RefreshTokenManager {
    const dao: Store<Key, Value>
    const config: Config

    constructor (dao: Store<Key, Value>, config: Config)
      ensures this.dao == dao && this.config == config
    {
      this.dao, this.config := dao, config;
    }

    method GetRecord(rt: string) returns (r: Option<RefreshRecord>)
      ensures r == Stored(config, dao.View(), rt)
    {
      var raw := dao.Get(config.RefreshKey(rt));
      r := match raw case Some(Record(record)) => Some(record) case _ => None;
    }

    method StoreWithExtra(rt: string, access: string, loginType: string, loginId: string, extra: Option<string>)
      modifies dao
      ensures dao.View() == StoreRefresh(config, old(dao.View()), rt, access, loginType, loginId, extra)
    {
      var expiry := if config.refreshTimeout > 0 then At(dao.now + 1000 * config.refreshTimeout) else Never;
      var record := RefreshRecord(access, loginId, expiry, None, None);
      if extra.Some? {
        record := record.(extra := extra);
      }
      dao.Set(config.RefreshKey(rt), Record(record), config.RefreshTtl());
      var _ := dao.ListPushUnique(config.IndexOf(loginType, loginId), rt, None);
    }

    method Delete(rt: string)
      modifies dao
      ensures dao.View() == DeleteRefresh(config, old(dao.View()), rt)
    {
      var record := GetRecord(rt);
      if record.Some? {
        var _ := dao.ListRemove(config.IndexOf(Keys.LOGIN_TYPE_DEFAULT, record.value.loginId), rt);
      }
      dao.Delete(config.RefreshKey(rt));
    }

    method ValidateToken(rt: string) returns (r: Result<string, Error>)
      modifies dao
      ensures (dao.View(), r) == Validate(config, old(dao.View()), rt)
    {
      var found := GetRecord(rt);
      if found.None? {
        return Err(RefreshTokenNotFound);
      }
      var record := found.value;
      if record.loginId == "" {
        return Err(RefreshTokenMissingLoginId);
      }
      match record.expireTime {
        case Never =>
        case Garbled => return Err(RefreshTokenInvalidExpireTime);
        case At(t) =>
          if dao.now > t {
            Delete(rt);
            return Err(TokenExpired);
          }
      }
      r := Ok(record.loginId);
    }

    method RefreshAccessToken(rt: string, next: string) returns (r: Result<string, Error>)
      modifies dao
      ensures (dao.View(), r) == Refreshed(config, old(dao.View()), rt, next)
    {
      var valid := ValidateToken(rt);
      if valid.Err? {
        return Err(valid.error);
      }
      var found := GetRecord(rt);
      if found.None? {
        return Err(RefreshTokenNotFound);
      }
      var record := found.value;
      ghost var start := dao.View();
      var info := TokenInfo(next, valid.value, dao.now, rt, None, record.extra, None);
      if config.refreshTimeout > 0 {
        info := info.(refreshExpire := Some(dao.now + 1000 * config.refreshTimeout));
      }
      info := info.(expireTime := Deadline(dao.now, config.AccessTtl()));
      SaveNew(rt, record, info);
      assert dao.View() == Stage(config, start, rt, record, next, 3);
      ReplaceOld(rt, record, next, start);
      record := record.(accessToken := next, refreshedAt := Some(dao.now));
      dao.Set(config.RefreshKey(rt), Record(record), config.RefreshTtl());
      r := Ok(next);
    }

    /** The new body, its identity mapping and the account's scalar mapping. */
    method SaveNew(rt: string, record: RefreshRecord, info: TokenInfo)
      requires info == NewInfo(config, dao.now, rt, record, info.token)
      modifies dao
      ensures dao.View() == Stage(config, old(dao.View()), rt, record, info.token, 3)
      ensures dao.now == old(dao.now)
    {
      ghost var start := dao.View();
      dao.Set(TokenBody(info.token), Body(info), config.AccessTtl());
      assert dao.View() == Stage(config, start, rt, record, info.token, 1);
      dao.Set(TokenId(info.token), Identity(Keys.LOGIN_TYPE_DEFAULT, info.loginId), config.AccessTtl());
      assert dao.View() == Stage(config, start, rt, record, info.token, 2);
      dao.Set(config.LoginTokenKey(info.loginId), Plain(info.token), config.AccessTtl());
    }

    /** The index entry is replaced, then the old body and mapping go. */
    method ReplaceOld(rt: string, record: RefreshRecord, next: string, ghost start: Db)
      requires dao.View() == Stage(config, start, rt, record, next, 3) && dao.now == start.now
      modifies dao
      ensures dao.View() == Stage(config, start, rt, record, next, 7) && dao.now == start.now
    {
      var previous := record.accessToken;
      if previous != next {
        var _ := dao.ListRemove(config.LoginIndexKey(record.loginId), previous);
      }
      assert dao.View() == Stage(config, start, rt, record, next, 4);
      if previous != next {
        var _ := dao.ListPushUnique(config.LoginIndexKey(record.loginId), next, config.AccessTtl());
      }
      assert dao.View() == Stage(config, start, rt, record, next, 5);
      dao.Delete(TokenBody(previous));
      assert dao.View() == Stage(config, start, rt, record, next, 6);
      dao.Delete(TokenId(previous));
    }

    method RevokeAllForUser(loginType: string, loginId: string)
      modifies dao
      ensures dao.View() == RevokeAll(config, old(dao.View()), loginType, loginId)
    {
      var index := config.IndexOf(loginType, loginId);
      var tokens := dao.ListRange(index, 0, None);
      for i := 0 to |tokens|
        invariant dao.View() == DeleteEach(config, old(dao.View()), tokens[..i])
      {
        DeleteOneMore(config, old(dao.View()), tokens[..i], tokens[i]);
        assert tokens[..i + 1] == tokens[..i] + [tokens[i]];
        Delete(tokens[i]);
      }
      assert tokens[..|tokens|] == tokens;
      dao.Delete(index);
    }
  }
}
