/** What a refresh leaves behind: after each of its writes, after a retry, and after a chain of refreshes. */
module RefreshRuns {
  import opened Wrappers
  import opened Storage
  import opened RefreshTokens
  import Keys

  // ---------- Every stage of one refresh ----------

  predicate SameEntry(a: Db, b: Db, key: Key) {
    (key in a.scalars <==> key in b.scalars) && (key in a.scalars ==> a.scalars[key] == b.scalars[key])
  }

  /** A mapping is stored at `now` for the access timeout: not at all limited when that is negative. */
  predicate Points(c: Config, s: Db, key: Key, value: Value, now: int) {
    key in s.scalars && s.scalars[key] == Entry(value, if c.timeout < 0 then None else Some(now + 1000 * c.timeout))
  }

  predicate StageShape(c: Config, db: Db, rt: string, r: RefreshRecord, next: string, n: nat, s: Db)
    requires n <= WRITES
  {
    BodiesShape(c, db, rt, r, next, n, s) && MappingsShape(c, db, rt, r, next, n, s) && IndexShape(c, r, next, n, s)
  }

  predicate BodiesShape(c: Config, db: Db, rt: string, r: RefreshRecord, next: string, n: nat, s: Db) {
    && s.now == db.now
    && (if n >= 1 then TokenBody(next) in s.scalars
          && s.scalars[TokenBody(next)] == Entry(Body(NewInfo(c, db.now, rt, r, next)), Deadline(db.now, c.AccessTtl()))
        else SameEntry(s, db, TokenBody(next)))
    && (if n >= 6 then TokenBody(r.accessToken) !in s.scalars else SameEntry(s, db, TokenBody(r.accessToken)))
    && (if n == 8 then c.RefreshKey(rt) in s.scalars
          && s.scalars[c.RefreshKey(rt)]
             == Entry(Record(r.(accessToken := next, refreshedAt := Some(db.now))), Deadline(db.now, c.RefreshTtl()))
        else SameEntry(s, db, c.RefreshKey(rt)))
  }

  predicate MappingsShape(c: Config, db: Db, rt: string, r: RefreshRecord, next: string, n: nat, s: Db) {
    && (if n >= 2 then Points(c, s, TokenId(next), Identity(Keys.LOGIN_TYPE_DEFAULT, r.loginId), db.now) else SameEntry(s, db, TokenId(next)))
    && (if n >= 3 then Points(c, s, c.LoginTokenKey(r.loginId), Plain(next), db.now) else SameEntry(s, db, c.LoginTokenKey(r.loginId)))
    && (if n >= 7 then TokenId(r.accessToken) !in s.scalars else SameEntry(s, db, TokenId(r.accessToken)))
  }

  predicate IndexShape(c: Config, r: RefreshRecord, next: string, n: nat, s: Db) {
    && (n >= 4 ==> r.accessToken !in s.Members(c.LoginIndexKey(r.loginId)))
    && (n >= 5 ==> (next in s.Members(c.LoginIndexKey(r.loginId)) <==> c.timeout != 0))
  }

  lemma {:induction false} BodiesHaveShape(c: Config, db: Db, rt: string, r: RefreshRecord, next: string, n: nat)
    requires n <= WRITES && r.accessToken != next
    ensures BodiesShape(c, db, rt, r, next, n, Stage(c, db, rt, r, next, n))
  {
    if n > 0 {
      BodiesHaveShape(c, db, rt, r, next, n - 1);
    }
  }

  lemma {:induction false} MappingsHaveShape(c: Config, db: Db, rt: string, r: RefreshRecord, next: string, n: nat)
    requires n <= WRITES && r.accessToken != next
    ensures Stage(c, db, rt, r, next, n).now == db.now && MappingsShape(c, db, rt, r, next, n, Stage(c, db, rt, r, next, n))
  {
    if n > 0 {
      MappingsHaveShape(c, db, rt, r, next, n - 1);
    }
  }

  lemma {:induction false} IndexHasShape(c: Config, db: Db, rt: string, r: RefreshRecord, next: string, n: nat)
    requires n <= WRITES && r.accessToken != next
    ensures Stage(c, db, rt, r, next, n).now == db.now && IndexShape(c, r, next, n, Stage(c, db, rt, r, next, n))
  {
    if n > 0 {
      IndexHasShape(c, db, rt, r, next, n - 1);
    }
  }

  lemma StagesHaveShape(c: Config, db: Db, rt: string, r: RefreshRecord, next: string, n: nat)
    requires n <= WRITES && r.accessToken != next
    ensures StageShape(c, db, rt, r, next, n, Stage(c, db, rt, r, next, n))
  {
    BodiesHaveShape(c, db, rt, r, next, n);
    MappingsHaveShape(c, db, rt, r, next, n);
    IndexHasShape(c, db, rt, r, next, n);
  }

  /** What no stage touches. */
  lemma StagesLeave(c: Config, db: Db, rt: string, r: RefreshRecord, next: string, n: nat)
    requires n <= WRITES
    ensures var s := Stage(c, db, rt, r, next, n);
            && (forall k: Key :: k.Refresh? && k != c.RefreshKey(rt) ==> SameEntry(s, db, k))
            && (forall t :: t != next && t != r.accessToken ==> SameEntry(s, db, TokenBody(t)) && SameEntry(s, db, TokenId(t)))
  {
    forall k: Key | k.Refresh? && k != c.RefreshKey(rt) ensures SameEntry(Stage(c, db, rt, r, next, n), db, k) {
      StagesLeaveKey(c, db, rt, r, next, n, k);
    }
    forall t | t != next && t != r.accessToken
      ensures SameEntry(Stage(c, db, rt, r, next, n), db, TokenBody(t)) && SameEntry(Stage(c, db, rt, r, next, n), db, TokenId(t))
    {
      StagesLeaveKey(c, db, rt, r, next, n, TokenBody(t));
      StagesLeaveKey(c, db, rt, r, next, n, TokenId(t));
    }
  }

  lemma {:induction false} StagesLeaveKey(c: Config, db: Db, rt: string, r: RefreshRecord, next: string, n: nat, k: Key)
    requires n <= WRITES
    requires (k.Refresh? && k != c.RefreshKey(rt))
             || ((k.TokenBody? || k.TokenId?) && k.token != next && k.token != r.accessToken)
    ensures SameEntry(Stage(c, db, rt, r, next, n), db, k)
  {
    if n > 0 {
      StagesLeaveKey(c, db, rt, r, next, n - 1, k);
    }
  }

  /** The lists of refresh tokens have no expiry. */
  predicate Lasting(db: Db) {
    forall k :: k in db.lists && k.Refresh? ==> db.lists[k].expireAt.None?
  }

  lemma {:induction false} StagesLeaveLists(c: Config, db: Db, rt: string, r: RefreshRecord, next: string, n: nat)
    requires n <= WRITES
    ensures var s := Stage(c, db, rt, r, next, n);
            var index := c.LoginIndexKey(r.loginId);
            && s.now == db.now
            && (forall k: Key :: k.Refresh? || (k.LoginIndex? && k != index) ==> s.Members(k) == db.Members(k))
            && (Lasting(db) ==> Lasting(s))
            && (forall t :: t in s.Members(index) ==> t == next || t in db.Members(index))
  {
    if n > 0 {
      StagesLeaveLists(c, db, rt, r, next, n - 1);
    }
  }

  ghost predicate EveryStageHasBody(c: Config, db: Db, rt: string, r: RefreshRecord, next: string) {
    forall n: nat :: n <= WRITES ==>
      HasBody(Stage(c, db, rt, r, next, n), r.accessToken) || HasBody(Stage(c, db, rt, r, next, n), next)
  }

  predicate HasBody(db: Db, token: string) {
    db.Get(TokenBody(token)).Some?
  }

  /** A refresh stopped after any of its writes leaves the old or the new body, unless the access timeout is zero. */
  lemma CrashLeavesABody(c: Config, db: Db, rt: string, r: RefreshRecord, next: string)
    requires HasBody(db, r.accessToken) && r.accessToken != next
    ensures EveryStageHasBody(c, db, rt, r, next) <==> c.timeout != 0
  {
    if c.timeout == 0 {
      StagesHaveShape(c, db, rt, r, next, 6);
      var s := Stage(c, db, rt, r, next, 6);
      assert !HasBody(s, r.accessToken) && !HasBody(s, next);
    } else {
      forall n: nat | n <= WRITES
        ensures HasBody(Stage(c, db, rt, r, next, n), r.accessToken) || HasBody(Stage(c, db, rt, r, next, n), next)
      {
        StagesHaveShape(c, db, rt, r, next, n);
        assert SameEntry(Stage(c, db, rt, r, next, n), db, TokenBody(r.accessToken)) || n >= 6;
      }
    }
  }

  /**
   A refresh that stops after `n` writes and is then retried to the end leaves the body of the first
   attempt behind exactly when it stopped after the first write and before the last.
   */
  lemma CrashThenRetryOrphan(c: Config, db: Db, rt: string, r: RefreshRecord, first: string, second: string, n: nat)
    requires n <= WRITES && Stored(c, db, rt) == Some(r) && Validate(c, db, rt).1.Ok?
    requires r.accessToken != first && r.accessToken != second && first != second
    requires TokenBody(first) !in db.scalars
    ensures var crashed := Stage(c, db, rt, r, first, n);
            var (after, result) := Refreshed(c, crashed, rt, second);
            && result == Ok(second)
            && TokenBody(second) in after.scalars
            && (TokenBody(first) in after.scalars <==> 0 < n < WRITES)
  {
    var crashed := Stage(c, db, rt, r, first, n);
    BodiesHaveShape(c, db, rt, r, first, n);
    assert db.Get(c.RefreshKey(rt)) == Some(Record(r));
    var kept := if n == WRITES then r.(accessToken := first, refreshedAt := Some(db.now)) else r;
    assert SameEntry(crashed, db, c.RefreshKey(rt)) || n == WRITES;
    assert Stored(c, crashed, rt) == Some(kept);
    BodiesHaveShape(c, crashed, rt, kept, second, WRITES);
    if n < WRITES {
      StagesLeaveKey(c, crashed, rt, kept, second, WRITES, TokenBody(first));
    }
  }

  // ---------- Chains of refreshes ----------

  datatype Step = Step(wait: nat, next: string)

  function Chain(c: Config, db: Db, rt: string, steps: seq<Step>): Db
    decreases |steps|
  {
    if steps == [] then db
    else Chain(c, Refreshed(c, db.Later(steps[0].wait), rt, steps[0].next).0, rt, steps[1..])
  }

  /** Every refresh of the chain succeeds. */
  predicate Succeeds(c: Config, db: Db, rt: string, steps: seq<Step>)
    decreases |steps|
  {
    steps != [] ==>
      && Refreshed(c, db.Later(steps[0].wait), rt, steps[0].next).1.Ok?
      && Succeeds(c, Refreshed(c, db.Later(steps[0].wait), rt, steps[0].next).0, rt, steps[1..])
  }

  /** The generated tokens are new. */
  ghost predicate Fresh(steps: seq<Step>, used: set<string>) {
    && (forall i :: 0 <= i < |steps| ==> steps[i].next !in used)
    && (forall i, j :: 0 <= i < j < |steps| ==> steps[i].next != steps[j].next)
  }

  /** The tokens in `retired` have left no body, no identity mapping and no index entry. */
  ghost predicate Gone(c: Config, db: Db, loginId: string, retired: set<string>) {
    forall t :: t in retired ==>
      TokenBody(t) !in db.scalars && TokenId(t) !in db.scalars && t !in db.Members(c.LoginIndexKey(loginId))
  }

  lemma RefreshStep(c: Config, db: Db, rt: string, r: RefreshRecord, next: string, retired: set<string>)
    requires Stored(c, db, rt) == Some(r) && Refreshed(c, db, rt, next).1.Ok?
    requires next !in retired && r.accessToken !in retired && next != r.accessToken && Gone(c, db, r.loginId, retired)
    ensures var after := Refreshed(c, db, rt, next).0;
            && after.now == db.now
            && Newest(c, after, rt, r, next)
            && Gone(c, after, r.loginId, retired + {r.accessToken})
  {
    StagesHaveShape(c, db, rt, r, next, WRITES);
    StagesLeave(c, db, rt, r, next, WRITES);
    StagesLeaveLists(c, db, rt, r, next, WRITES);
    var after := Refreshed(c, db, rt, next).0;
    forall t | t in retired
      ensures TokenBody(t) !in after.scalars && TokenId(t) !in after.scalars && t !in after.Members(c.LoginIndexKey(r.loginId))
    {
      assert SameEntry(after, db, TokenBody(t)) && SameEntry(after, db, TokenId(t));
    }
  }

  /** `r` with the newest access token, everything else as it was stored. */
  function Renewed(r: RefreshRecord, token: string, at: int): RefreshRecord {
    r.(accessToken := token, refreshedAt := Some(at))
  }

  ghost predicate Holds(c: Config, db: Db, rt: string, r: RefreshRecord) {
    c.RefreshKey(rt) in db.scalars && db.scalars[c.RefreshKey(rt)].value == Record(r)
  }

  /** `info` is the body a refresh at time `now` issues under `token`. */
  predicate Issued(c: Config, now: int, info: TokenInfo, rt: string, r: RefreshRecord, token: string) {
    && info.token == token && info.refreshToken == rt && info.loginId == r.loginId && info.extra == r.extra
    && info.activeTime == now
    && info.expireTime == (if c.timeout < 0 then None else Some(now + 1000 * c.timeout))
    && info.refreshExpire == (if c.refreshTimeout > 0 then Some(now + 1000 * c.refreshTimeout) else None)
  }

  /** The state after the newest refresh: a body for `token`, both mappings, an index entry, and the record pointing at it. */
  ghost predicate Newest(c: Config, db: Db, rt: string, r: RefreshRecord, token: string) {
    && Holds(c, db, rt, Renewed(r, token, db.now))
    && db.scalars[c.RefreshKey(rt)].expireAt == (if c.refreshTimeout > 0 then Some(db.now + 1000 * c.refreshTimeout) else None)
    && TokenBody(token) in db.scalars && db.scalars[TokenBody(token)].value.Body?
    && db.scalars[TokenBody(token)].expireAt == (if c.timeout < 0 then None else Some(db.now + 1000 * c.timeout))
    && (HasBody(db, token) <==> c.timeout != 0)
    && Issued(c, db.now, db.scalars[TokenBody(token)].value.info, rt, r, token)
    && Points(c, db, TokenId(token), Identity(Keys.LOGIN_TYPE_DEFAULT, r.loginId), db.now)
    && Points(c, db, c.LoginTokenKey(r.loginId), Plain(token), db.now)
    && (token in db.Members(c.LoginIndexKey(r.loginId)) <==> c.timeout != 0)
    && (r.expireTime.At? ==> db.now <= r.expireTime.ms)
  }

  /**
   After any chain of successful refreshes the newest access token has body, mappings and index entry, the
   record points at it, and nothing else in the record moved: in particular the expiry, so no refresh
   succeeds after the one fixed when the refresh token was stored, whatever the token body reports.
   */
  lemma {:induction false} RefreshChain(c: Config, db: Db, rt: string, r: RefreshRecord, steps: seq<Step>, retired: set<string>)
    requires steps != [] && Succeeds(c, db, rt, steps) && Holds(c, db, rt, r)
    requires Fresh(steps, retired + {r.accessToken}) && r.accessToken !in retired && Gone(c, db, r.loginId, retired)
    ensures Newest(c, Chain(c, db, rt, steps), rt, r, steps[|steps| - 1].next)
    decreases |steps|
  {
    var now := db.Later(steps[0].wait);
    var next := steps[0].next;
    assert Stored(c, now, rt) == Some(r);
    RefreshStep(c, now, rt, r, next, retired);
    var rest := steps[1..];
    if rest != [] {
      FreshRest(steps, retired + {r.accessToken});
      RefreshChain(c, Refreshed(c, now, rt, next).0, rt, Renewed(r, next, now.now), rest, retired + {r.accessToken});
    }
  }

  lemma FreshRest(steps: seq<Step>, used: set<string>)
    requires steps != [] && Fresh(steps, used)
    ensures Fresh(steps[1..], used + {steps[0].next})
  {
    assert forall i :: 0 <= i < |steps[1..]| ==> steps[1..][i] == steps[i + 1];
  }

  /** The access tokens a chain replaces: the first and all generated ones but the last. */
  function Replaced(access: string, steps: seq<Step>): set<string>
    decreases |steps|
  {
    if steps == [] then {} else {access} + Replaced(steps[0].next, steps[1..])
  }

  /** ... and every token it replaced has lost its body, its mapping and its index entry. */
  lemma {:induction false} ChainRetiresOld(c: Config, db: Db, rt: string, r: RefreshRecord, steps: seq<Step>, retired: set<string>)
    requires Succeeds(c, db, rt, steps) && Holds(c, db, rt, r)
    requires Fresh(steps, retired + {r.accessToken}) && r.accessToken !in retired && Gone(c, db, r.loginId, retired)
    ensures Gone(c, Chain(c, db, rt, steps), r.loginId, retired + Replaced(r.accessToken, steps))
    decreases |steps|
  {
    if steps != [] {
      var now := db.Later(steps[0].wait);
      var next := steps[0].next;
      assert Stored(c, now, rt) == Some(r);
      RefreshStep(c, now, rt, r, next, retired);
      FreshRest(steps, retired + {r.accessToken});
      ChainRetiresOld(c, Refreshed(c, now, rt, next).0, rt, Renewed(r, next, now.now), steps[1..], retired + {r.accessToken});
    }
  }

  // ---------- The expiry a refresh reports ----------

  /** Whether the refresh token is good at every instant before the expiry that the body reports. */
  ghost predicate GoodUntil(c: Config, db: Db, rt: string, reported: int) {
    forall d: nat :: db.now + d < reported ==> Validate(c, db.Later(d), rt).1.Ok?
  }

  /** After a refresh the token is good while both the record's own expiry and its entry last. */
  lemma GoodExactlyWhile(c: Config, db: Db, rt: string, next: string, d: nat)
    requires c.refreshTimeout > 0 && Refreshed(c, db, rt, next).1.Ok?
    ensures var r := Stored(c, db, rt).value;
            Validate(c, Refreshed(c, db, rt, next).0.Later(d), rt).1.Ok? <==>
              d < 1000 * c.refreshTimeout && (r.expireTime.At? ==> db.now + d <= r.expireTime.ms)
  {
    var r := Stored(c, db, rt).value;
    StagesLeaveLists(c, db, rt, r, next, WRITES - 1);
  }

  /**
   A refresh reports an expiry counted from now. The token is good that long exactly when the record,
   whose expiry does not move, has none or one in the last instant before the reported one or later.
   */
  lemma ReportedExpiryExactly(c: Config, db: Db, rt: string, next: string)
    requires c.refreshTimeout > 0 && Refreshed(c, db, rt, next).1.Ok? && next != Stored(c, db, rt).value.accessToken
    ensures var r := Stored(c, db, rt).value;
            var after := Refreshed(c, db, rt, next).0;
            var reported := db.now + 1000 * c.refreshTimeout;
            && after.now == db.now
            && TokenBody(next) in after.scalars && after.scalars[TokenBody(next)].value.Body?
            && after.scalars[TokenBody(next)].value.info.refreshExpire == Some(reported)
            && (GoodUntil(c, after, rt, reported) <==> (r.expireTime.At? ==> reported - 1 <= r.expireTime.ms))
  {
    var r := Stored(c, db, rt).value;
    var after := Refreshed(c, db, rt, next).0;
    var reported := db.now + 1000 * c.refreshTimeout;
    BodiesHaveShape(c, db, rt, r, next, WRITES);
    forall d: nat | after.now + d < reported
      ensures Validate(c, after.Later(d), rt).1.Ok? <==> (r.expireTime.At? ==> db.now + d <= r.expireTime.ms)
    {
      GoodExactlyWhile(c, db, rt, next, d);
    }
    var last: nat := 1000 * c.refreshTimeout - 1;
    assert GoodUntil(c, after, rt, reported) ==> Validate(c, after.Later(last), rt).1.Ok?;
  }

  /** The state `wait` after a token was stored and refreshed for the first time. */
  function StoredThenRefreshed(c: Config, db: Db, rt: string, access: string, loginId: string, wait: nat, next: string):
    (Db, Result<string, Error>)
  {
    Refreshed(c, StoreRefresh(c, db, rt, access, "", loginId, None).Later(wait), rt, next)
  }

  /** So for the first refresh, `wait` after storing: the report is right only within the first millisecond. */
  lemma FirstReportExactly(c: Config, db: Db, rt: string, access: string, loginId: string, wait: nat, next: string)
    requires c.refreshTimeout > 0 && loginId != "" && next != access && wait < 1000 * c.refreshTimeout
    ensures var (after, result) := StoredThenRefreshed(c, db, rt, access, loginId, wait, next);
            && result == Ok(next)
            && (GoodUntil(c, after, rt, after.now + 1000 * c.refreshTimeout) <==> wait <= 1)
  {
    var before := StoreRefresh(c, db, rt, access, "", loginId, None).Later(wait);
    assert Stored(c, before, rt) == Some(RefreshRecord(access, loginId, At(db.now + 1000 * c.refreshTimeout), None, None));
    ReportedExpiryExactly(c, before, rt, next);
  }

  /** For one: a day's timeout, refreshed in its last second. The token is refused a day before the reported expiry. */
  lemma ReportOutlivesToken(c: Config, db: Db, rt: string, access: string, loginId: string, next: string)
    requires c.refreshTimeout == 86400 && loginId != "" && next != access
    ensures var (after, result) := StoredThenRefreshed(c, db, rt, access, loginId, 86399000, next);
            && result == Ok(next)
            && TokenBody(next) in after.scalars && after.scalars[TokenBody(next)].value.Body?
            && after.scalars[TokenBody(next)].value.info.refreshExpire == Some(after.now + 86400000)
            && Validate(c, after.Later(1001), rt).1 == Err(TokenExpired)
  {
    var before := StoreRefresh(c, db, rt, access, "", loginId, None).Later(86399000);
    assert Stored(c, before, rt) == Some(RefreshRecord(access, loginId, At(db.now + 86400000), None, None));
    ReportedExpiryExactly(c, before, rt, next);
    StagesLeaveLists(c, before, rt, Stored(c, before, rt).value, next, WRITES - 1);
  }

  // ---------- What one call does ----------

  /** A stored token holds what it was stored with, and is good exactly until the timeout has passed, or for ever without one. */
  lemma StoredLasts(c: Config, db: Db, rt: string, access: string, loginType: string, loginId: string, extra: Option<string>, ms: nat)
    ensures var stored := StoreRefresh(c, db, rt, access, loginType, loginId, extra);
            var later := stored.Later(ms);
            var lasts := c.refreshTimeout <= 0 || ms < 1000 * c.refreshTimeout;
            && Stored(c, stored, rt).Some?
            && Stored(c, stored, rt).value.accessToken == access && Stored(c, stored, rt).value.loginId == loginId
            && Stored(c, stored, rt).value.extra == extra && Stored(c, stored, rt).value.refreshedAt == None
            && rt in stored.Members(c.IndexOf(loginType, loginId))
            && Validate(c, later, rt).1 ==
                 (if !lasts then Err(RefreshTokenNotFound) else if loginId == "" then Err(RefreshTokenMissingLoginId) else Ok(loginId))
  {
  }

  /** Each outcome of a validation, and that only an expired record is touched, and goes. */
  lemma ValidatedExactly(c: Config, db: Db, rt: string)
    ensures var (after, r) := Validate(c, db, rt);
            var stored := Stored(c, db, rt);
            && (r == Err(RefreshTokenNotFound) <==> stored.None?)
            && (r == Err(RefreshTokenMissingLoginId) <==> stored.Some? && stored.value.loginId == "")
            && (r == Err(RefreshTokenInvalidExpireTime) <==> stored.Some? && stored.value.loginId != "" && stored.value.expireTime.Garbled?)
            && (r == Err(TokenExpired) <==>
                  stored.Some? && stored.value.loginId != "" && stored.value.expireTime.At? && stored.value.expireTime.ms < db.now)
            && (r.Ok? ==> r.value == stored.value.loginId)
            && (r == Err(TokenExpired) ==> Stored(c, after, rt).None?)
            && (r != Err(TokenExpired) ==> after == db)
  {
  }

  /** A refresh succeeds exactly when the token validates, and otherwise reports and does only what that does. */
  lemma RefreshedExactly(c: Config, db: Db, rt: string, next: string)
    ensures var (after, r) := Refreshed(c, db, rt, next);
            if Validate(c, db, rt).1.Ok? then r == Ok(next) else after == Validate(c, db, rt).0 && r == Validate(c, db, rt).1
  {
  }

  /** After a refresh with a new access token everything the source stores is there, with its content and expiry. */
  lemma RefreshStores(c: Config, db: Db, rt: string, next: string)
    requires Refreshed(c, db, rt, next).1.Ok? && next != Stored(c, db, rt).value.accessToken
    ensures Newest(c, Refreshed(c, db, rt, next).0, rt, Stored(c, db, rt).value, next)
  {
    var r := Stored(c, db, rt).value;
    StagesHaveShape(c, db, rt, r, next, WRITES);
    StagesLeaveLists(c, db, rt, r, next, WRITES);
  }
}
