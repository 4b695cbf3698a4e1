/**
 Which refresh tokens stay listed and which stay valid over whole runs. The key of token "user:" + ns is
 the key of an account's index, so deleting such a token deletes the index; the theorems say exactly when.
 */
module RefreshRevocation {
  import opened Wrappers
  import opened Storage
  import opened RefreshTokens
  import opened RefreshRuns
  import Keys

  datatype Op =
    | StoreOp(rt: string, access: string, loginType: string, loginId: string, extra: Option<string>)
    | ValidateOp(rt: string)
    | RefreshOp(rt: string, next: string)
    | DeleteOp(rt: string)
    | RevokeOp(loginType: string, loginId: string)
    | Elapse(ms: nat)
    | Evict(rt: string)   // the backend drops an expired record

  function After(c: Config, db: Db, op: Op): Db {
    match op
    case StoreOp(rt, access, t, id, extra) => StoreRefresh(c, db, rt, access, t, id, extra)
    case ValidateOp(rt) => Validate(c, db, rt).0
    case RefreshOp(rt, next) => Refreshed(c, db, rt, next).0
    case DeleteOp(rt) => DeleteRefresh(c, db, rt)
    case RevokeOp(t, id) => RevokeAll(c, db, t, id)
    case Elapse(ms) => db.Later(ms)
    case Evict(rt) => db.Evicted(c.RefreshKey(rt))
  }

  predicate Stores(op: Op, rt: string) {
    op.StoreOp? && op.rt == rt
  }

  predicate Deletes(c: Config, db: Db, op: Op, rt: string) {
    match op
    case ValidateOp(x) => x == rt && Validate(c, db, x).1 == Err(TokenExpired)
    case RefreshOp(x, _) => x == rt && Validate(c, db, x).1 == Err(TokenExpired)
    case DeleteOp(x) => x == rt
    case RevokeOp(t, id) => rt in db.Members(c.IndexOf(t, id))
    case Evict(x) => x == rt && c.RefreshKey(rt) in db.scalars && db.Get(c.RefreshKey(rt)).None?
    case _ => false
  }

  // ---------- What one operation does to records and indexes ----------

  /** The list under `k` goes with one of the deleted tokens. */
  ghost predicate Dropped(c: Config, db: Db, op: Op, k: Key) {
    exists t :: Deletes(c, db, op, t) && k == c.RefreshKey(t)
  }

  ghost predicate Effect(c: Config, db: Db, op: Op, after: Db) {
    && Lasting(after)
    && (forall x :: Deletes(c, db, op, x) ==> c.RefreshKey(x) !in after.scalars)
    && (forall x :: c.RefreshKey(x) in after.scalars ==> c.RefreshKey(x) in db.scalars || Stores(op, x))
    && (forall k: Key, x :: k.Refresh? && x in db.Members(k) && !Deletes(c, db, op, x) ==>
          (x in after.Members(k) <==> !Dropped(c, db, op, k)))
    && (forall k: Key, x :: k.Refresh? && x in after.Members(k) ==> x in db.Members(k) || Stores(op, x))
    && (op.StoreOp? ==> op.rt in after.Members(c.IndexOf(op.loginType, op.loginId)))
  }

  lemma DeleteEffect(c: Config, db: Db, rt: string)
    requires Lasting(db)
    ensures var after := DeleteRefresh(c, db, rt);
            && after.now == db.now && Lasting(after)
            && c.RefreshKey(rt) !in after.scalars
            && (forall k: Key :: k.Refresh? && k != c.RefreshKey(rt) ==> SameEntry(after, db, k))
            && (forall k: Key, x :: k.Refresh? && x != rt ==>
                  (x in after.Members(k) <==> x in db.Members(k) && k != c.RefreshKey(rt)))
            && (forall k: Key, x :: k.Refresh? && x in after.Members(k) ==> x in db.Members(k))
  {
  }

  ghost predicate KeyOfSome(c: Config, tokens: seq<string>, k: Key) {
    exists t :: t in tokens && k == c.RefreshKey(t)
  }

  lemma {:induction false} DeleteEachEffect(c: Config, db: Db, tokens: seq<string>)
    requires Lasting(db)
    ensures var after := DeleteEach(c, db, tokens);
            && after.now == db.now && Lasting(after)
            && (forall k: Key :: k.Refresh? ==>
                  if KeyOfSome(c, tokens, k) then k !in after.scalars else SameEntry(after, db, k))
            && (forall k: Key, x :: k.Refresh? && x !in tokens ==>
                  (x in after.Members(k) <==> x in db.Members(k) && !KeyOfSome(c, tokens, k)))
            && (forall k: Key, x :: k.Refresh? && x in after.Members(k) ==> x in db.Members(k))
    decreases |tokens|
  {
    if tokens != [] {
      var next := DeleteRefresh(c, db, tokens[0]);
      DeleteEffect(c, db, tokens[0]);
      DeleteEachEffect(c, next, tokens[1..]);
      forall k: Key ensures KeyOfSome(c, tokens, k) <==> k == c.RefreshKey(tokens[0]) || KeyOfSome(c, tokens[1..], k) {
        assert forall t :: t in tokens <==> t == tokens[0] || t in tokens[1..];
      }
      forall k: Key, x | k.Refresh? && x !in tokens
        ensures x in DeleteEach(c, db, tokens).Members(k) <==> x in db.Members(k) && !KeyOfSome(c, tokens, k)
      {
        assert x !in tokens[1..] && x != tokens[0];
      }
      forall k: Key | k.Refresh?
        ensures if KeyOfSome(c, tokens, k) then k !in DeleteEach(c, db, tokens).scalars
                else SameEntry(DeleteEach(c, db, tokens), db, k)
      {
        assert k != c.RefreshKey(tokens[0]) ==> SameEntry(next, db, k);
      }
    }
  }

  lemma DeleteHasEffect(c: Config, db: Db, op: Op, rt: string)
    requires Lasting(db) && (op == DeleteOp(rt) || (Validate(c, db, rt).1 == Err(TokenExpired) && (op == ValidateOp(rt) || (op.RefreshOp? && op.rt == rt))))
    ensures Effect(c, db, op, DeleteRefresh(c, db, rt))
  {
    c.RefreshKeysApart();
    DeleteEffect(c, db, rt);
    assert Deletes(c, db, op, rt);
    assert Dropped(c, db, op, c.RefreshKey(rt));
    forall x | c.RefreshKey(x) in DeleteRefresh(c, db, rt).scalars ensures c.RefreshKey(x) in db.scalars {
      assert SameEntry(DeleteRefresh(c, db, rt), db, c.RefreshKey(x));
    }
  }

  lemma RevokeHasEffect(c: Config, db: Db, loginType: string, loginId: string)
    requires Lasting(db)
    ensures Effect(c, db, RevokeOp(loginType, loginId), RevokeAll(c, db, loginType, loginId))
  {
    var op := RevokeOp(loginType, loginId);
    var index := c.IndexOf(loginType, loginId);
    var tokens := db.Members(index);
    DeleteEachEffect(c, db, tokens);
    forall k: Key ensures KeyOfSome(c, tokens, k) <==> Dropped(c, db, op, k) {
      assert forall t :: t in tokens <==> Deletes(c, db, op, t);
    }
    forall x ensures Deletes(c, db, op, x) ==> c.RefreshKey(x) !in DeleteEach(c, db, tokens).scalars {
      assert Deletes(c, db, op, x) ==> KeyOfSome(c, tokens, c.RefreshKey(x));
    }
    forall x | c.RefreshKey(x) in DeleteEach(c, db, tokens).scalars ensures c.RefreshKey(x) in db.scalars {
      assert SameEntry(DeleteEach(c, db, tokens), db, c.RefreshKey(x));
    }
  }

  lemma RefreshHasEffect(c: Config, db: Db, rt: string, next: string)
    requires Lasting(db) && Validate(c, db, rt).1.Ok?
    ensures Effect(c, db, RefreshOp(rt, next), Refreshed(c, db, rt, next).0)
  {
    var r := Stored(c, db, rt).value;
    StagesLeaveLists(c, db, rt, r, next, WRITES);
    StagesLeave(c, db, rt, r, next, WRITES);
    forall x | c.RefreshKey(x) in Refreshed(c, db, rt, next).0.scalars ensures c.RefreshKey(x) in db.scalars {
      assert c.RefreshKey(x) == c.RefreshKey(rt) || SameEntry(Refreshed(c, db, rt, next).0, db, c.RefreshKey(x));
    }
  }

  lemma StoreHasEffect(c: Config, db: Db, op: Op)
    requires Lasting(db) && op.StoreOp?
    ensures Effect(c, db, op, After(c, db, op))
  {
    c.RefreshKeysApart();
  }

  lemma QuietHasEffect(c: Config, db: Db, op: Op)
    requires Lasting(db) && (After(c, db, op) == db || op.Elapse?) && !op.StoreOp? && forall x :: !Deletes(c, db, op, x)
    ensures Effect(c, db, op, After(c, db, op))
  {
  }

  lemma EvictHasEffect(c: Config, db: Db, rt: string)
    requires Lasting(db)
    ensures Effect(c, db, Evict(rt), db.Evicted(c.RefreshKey(rt)))
  {
    c.RefreshKeysApart();
    var op := Evict(rt);
    assert Deletes(c, db, op, rt) ==> Dropped(c, db, op, c.RefreshKey(rt));
  }

  lemma AfterHasEffect(c: Config, db: Db, op: Op)
    requires Lasting(db)
    ensures Effect(c, db, op, After(c, db, op))
  {
    match op
    case StoreOp(_, _, _, _, _) => StoreHasEffect(c, db, op);
    case ValidateOp(rt) =>
      if Validate(c, db, rt).1 == Err(TokenExpired) {
        DeleteHasEffect(c, db, op, rt);
      } else {
        QuietHasEffect(c, db, op);
      }
    case DeleteOp(rt) => DeleteHasEffect(c, db, op, rt);
    case RefreshOp(rt, next) =>
      if Validate(c, db, rt).1.Ok? {
        RefreshHasEffect(c, db, rt, next);
      } else if Validate(c, db, rt).1 == Err(TokenExpired) {
        DeleteHasEffect(c, db, op, rt);
      } else {
        QuietHasEffect(c, db, op);
      }
    case RevokeOp(t, id) => RevokeHasEffect(c, db, t, id);
    case Elapse(_) => QuietHasEffect(c, db, op);
    case Evict(rt) => EvictHasEffect(c, db, rt);
  }

  // ---------- Which tokens name an index ----------

  predicate StandsAt(s: string, t: string, i: nat) {
    i <= |s| - |t| && s[i..i + |t|] == t
  }

  predicate Contains(s: string, t: string) {
    exists i :: 0 <= i <= |s| && StandsAt(s, t, i)
  }

  /** What a caller can check: the key of this token is the key of some account's index. */
  predicate NamesIndex(c: Config, rt: string) {
    match c.keys.layout
    case ThreeSegment => "user:" <= rt
    case JavaFourSegment => Contains("login:refresh:" + rt, ":refresh:user:")
  }

  lemma NamesIndexExactly(c: Config, rt: string)
    ensures NamesIndex(c, rt) <==> exists t, id :: c.RefreshKey(rt) == c.IndexOf(t, id)
  {
    if NamesIndex(c, rt) {
      var t, id := NamedAccount(c, rt);
    }
    forall t, id | c.RefreshKey(rt) == c.IndexOf(t, id) ensures NamesIndex(c, rt) {
      NamesItsIndex(c, rt, t, id);
    }
  }

  /** In the three-segment layout the token is "user:" and the account's namespace. */
  lemma NamesNamespace(c: Config, rt: string, loginType: string, loginId: string)
    requires c.keys.layout.ThreeSegment?
    ensures c.RefreshKey(rt) == c.IndexOf(loginType, loginId) <==> rt == "user:" + Keys.AccountNs(loginType, loginId)
  {
    var ns := Keys.AccountNs(loginType, loginId);
    c.keys.AccountIsGlobalOfNs("refresh:user", loginType, loginId);
    assert "refresh" + ":" + "user" == "refresh:user" && "user" + ":" + ns == "user:" + ns;
    c.keys.NestedGlobal("refresh", "user", rt, ns);
  }

  /** In the four-segment layout what follows the root decides. */
  lemma NamesFourSegments(c: Config, rt: string, loginType: string, loginId: string)
    requires c.keys.layout.JavaFourSegment?
    ensures c.RefreshKey(rt) == c.IndexOf(loginType, loginId) <==>
            "login:refresh:" + rt == Keys.SaKeys.OrLogin(loginType) + ":refresh:user:" + loginId
  {
    var front := c.keys.root + ":";
    var lt := Keys.SaKeys.OrLogin(loginType);
    assert c.keys.Global("refresh", rt, None) == front + ("login:refresh:" + rt);
    assert c.keys.Account("refresh:user", loginType, loginId) == front + (lt + ":refresh:user:" + loginId);
    Keys.SameAfter(front, "login:refresh:" + rt, lt + ":refresh:user:" + loginId);
  }

  lemma NamedAccount(c: Config, rt: string) returns (loginType: string, loginId: string)
    requires NamesIndex(c, rt)
    ensures c.RefreshKey(rt) == c.IndexOf(loginType, loginId)
  {
    if c.keys.layout.ThreeSegment? {
      loginType, loginId := "", rt[|"user:"|..];
      assert rt == "user:" + loginId;
      NamesNamespace(c, rt, loginType, loginId);
    } else {
      loginType, loginId := SplitAtMark("login:refresh:" + rt, ":refresh:user:");
      assert loginType != "" by {
        assert ("login:refresh:" + rt)[0] == 'l' && (loginType + ":refresh:user:" + loginId)[|loginType|] == ':';
      }
      NamesFourSegments(c, rt, loginType, loginId);
    }
  }

  lemma SplitAtMark(s: string, mark: string) returns (before: string, after: string)
    requires Contains(s, mark)
    ensures s == before + mark + after
  {
    var i :| 0 <= i <= |s| && StandsAt(s, mark, i);
    before, after := s[..i], s[i + |mark|..];
    assert s == s[..i] + s[i..i + |mark|] + s[i + |mark|..];
  }

  lemma NamesItsIndex(c: Config, rt: string, loginType: string, loginId: string)
    requires c.RefreshKey(rt) == c.IndexOf(loginType, loginId)
    ensures NamesIndex(c, rt)
  {
    if c.keys.layout.ThreeSegment? {
      NamesNamespace(c, rt, loginType, loginId);
    } else {
      NamesFourSegments(c, rt, loginType, loginId);
      var s, mark, i := "login:refresh:" + rt, ":refresh:user:", |Keys.SaKeys.OrLogin(loginType)|;
      assert StandsAt(s, mark, i);
    }
  }

  /** No token that `generate` makes names an index in the three-segment layout. */
  lemma GeneratedTokensArePlain(c: Config, rest: string)
    requires c.keys.layout.ThreeSegment?
    ensures !NamesIndex(c, "refresh_" + rest)
  {
    assert ("refresh_" + rest)[0] == 'r';
  }

  // ---------- Tokens stay listed ----------

  /** Refresh tokens with the index key they were stored under, since they were last deleted. */
  type Holdings = set<(string, Key)>

  function Held(c: Config, db: Db, op: Op, h: Holdings): Holdings {
    match op
    case StoreOp(rt, _, t, id, _) => h + {(rt, c.IndexOf(t, id))}
    case _ => set p | p in h && !Deletes(c, db, op, p.0)
  }

  /** A held token is listed in the index it was stored under. */
  ghost predicate Listed(db: Db, h: Holdings) {
    forall p :: p in h ==> p.1.Refresh? && p.0 in db.Members(p.1)
  }

  /** The operation deletes a token whose key is the index of a held token that it does not delete. */
  ghost predicate Cuts(c: Config, db: Db, op: Op, h: Holdings) {
    exists p :: p in h && !Deletes(c, db, op, p.0) && Dropped(c, db, op, p.1)
  }

  /** Every operation keeps each held token listed exactly when it cuts no index. */
  lemma AfterKeepsListed(c: Config, db: Db, op: Op, h: Holdings)
    requires Lasting(db) && Listed(db, h)
    ensures Lasting(After(c, db, op))
    ensures Listed(After(c, db, op), Held(c, db, op, h)) <==> !Cuts(c, db, op, h)
  {
    var after := After(c, db, op);
    AfterHasEffect(c, db, op);
    forall p | p in h && !Deletes(c, db, op, p.0)
      ensures p in Held(c, db, op, h) && (p.0 in after.Members(p.1) <==> !Dropped(c, db, op, p.1))
    {
    }
  }

  function RunAfter(c: Config, db: Db, h: Holdings, ops: seq<Op>): (Db, Holdings)
    decreases |ops|
  {
    if ops == [] then (db, h) else RunAfter(c, After(c, db, ops[0]), Held(c, db, ops[0], h), ops[1..])
  }

  ghost predicate AlwaysListed(c: Config, db: Db, h: Holdings, ops: seq<Op>)
    decreases |ops|
  {
    Listed(db, h) && (ops != [] ==> AlwaysListed(c, After(c, db, ops[0]), Held(c, db, ops[0], h), ops[1..]))
  }

  ghost predicate NeverCuts(c: Config, db: Db, h: Holdings, ops: seq<Op>)
    decreases |ops|
  {
    ops != [] ==> !Cuts(c, db, ops[0], h) && NeverCuts(c, After(c, db, ops[0]), Held(c, db, ops[0], h), ops[1..])
  }

  /** A run keeps every held token listed throughout exactly when none of its operations cuts an index. */
  lemma {:induction false} RunKeepsListed(c: Config, db: Db, h: Holdings, ops: seq<Op>)
    requires Lasting(db) && Listed(db, h)
    ensures AlwaysListed(c, db, h, ops) <==> NeverCuts(c, db, h, ops)
    ensures NeverCuts(c, db, h, ops) ==> Listed(RunAfter(c, db, h, ops).0, RunAfter(c, db, h, ops).1)
    ensures Lasting(RunAfter(c, db, h, ops).0)
    decreases |ops|
  {
    if ops != [] {
      AfterKeepsListed(c, db, ops[0], h);
      var db', h' := After(c, db, ops[0]), Held(c, db, ops[0], h);
      if Listed(db', h') {
        RunKeepsListed(c, db', h', ops[1..]);
      } else {
        RunLasts(c, db', h', ops[1..]);
      }
    }
  }

  lemma {:induction false} RunLasts(c: Config, db: Db, h: Holdings, ops: seq<Op>)
    requires Lasting(db)
    ensures Lasting(RunAfter(c, db, h, ops).0)
    decreases |ops|
  {
    if ops != [] {
      AfterHasEffect(c, db, ops[0]);
      RunLasts(c, After(c, db, ops[0]), Held(c, db, ops[0], h), ops[1..]);
    }
  }

  /** What a caller can check: no token of the run names an index. */
  predicate PlainTokens(c: Config, ops: seq<Op>) {
    forall i :: 0 <= i < |ops| ==> PlainToken(c, ops[i])
  }

  predicate PlainToken(c: Config, op: Op) {
    op.StoreOp? || op.ValidateOp? || op.RefreshOp? || op.DeleteOp? ==> !NamesIndex(c, op.rt)
  }

  ghost predicate PlainState(c: Config, db: Db) {
    && Lasting(db)
    && (forall k: Key, x :: k.Refresh? && x in db.Members(k) ==> !NamesIndex(c, x))
    && (forall x :: c.RefreshKey(x) in db.scalars ==> !NamesIndex(c, x))
  }

  lemma PlainDropsNoIndex(c: Config, db: Db, op: Op, t: string, id: string)
    requires PlainState(c, db) && PlainToken(c, op)
    ensures PlainState(c, After(c, db, op)) && !Dropped(c, db, op, c.IndexOf(t, id))
  {
    AfterHasEffect(c, db, op);
    forall k: Key, x | k.Refresh? && x in After(c, db, op).Members(k) ensures !NamesIndex(c, x) {
      assert x in db.Members(k) || Stores(op, x);
    }
    forall x | Deletes(c, db, op, x) ensures c.RefreshKey(x) != c.IndexOf(t, id) {
      if c.RefreshKey(x) == c.IndexOf(t, id) {
        NamesItsIndex(c, x, t, id);
      }
    }
  }

  ghost predicate UnderIndexes(c: Config, h: Holdings) {
    forall p :: p in h ==> exists t, id :: p.1 == c.IndexOf(t, id)
  }

  lemma {:induction false} PlainNeverCuts(c: Config, db: Db, h: Holdings, ops: seq<Op>)
    requires PlainState(c, db) && UnderIndexes(c, h) && PlainTokens(c, ops)
    ensures NeverCuts(c, db, h, ops)
    decreases |ops|
  {
    if ops != [] {
      assert PlainToken(c, ops[0]);
      PlainDropsNoIndex(c, db, ops[0], "", "");
      forall p | p in h ensures !Dropped(c, db, ops[0], p.1) {
        var t, id :| p.1 == c.IndexOf(t, id);
        PlainDropsNoIndex(c, db, ops[0], t, id);
      }
      PlainNeverCuts(c, After(c, db, ops[0]), Held(c, db, ops[0], h), ops[1..]);
    }
  }

  // ---------- Revocation ----------

  /** A token that was valid is so after a revoke exactly when the index does not list it and is not kept under its key. */
  lemma RevokeExactly(c: Config, db: Db, loginType: string, loginId: string, rt: string)
    requires Lasting(db) && Validate(c, db, rt).1.Ok?
    ensures var index := c.IndexOf(loginType, loginId);
            var after := Validate(c, RevokeAll(c, db, loginType, loginId), rt).1;
            if rt in db.Members(index) || c.RefreshKey(rt) == index then after == Err(RefreshTokenNotFound)
            else after == Validate(c, db, rt).1
  {
    var index := c.IndexOf(loginType, loginId);
    var tokens := db.Members(index);
    c.RefreshKeysApart();
    DeleteEachEffect(c, db, tokens);
    assert SameEntry(DeleteEach(c, db, tokens), db, c.RefreshKey(rt)) || KeyOfSome(c, tokens, c.RefreshKey(rt));
  }

  /** After any run that cuts no index, revoking an account leaves no refresh token held for it valid. */
  lemma RevokeLeavesNothingValid(c: Config, start: int, ops: seq<Op>, loginType: string, loginId: string, rt: string)
    requires NeverCuts(c, State(map[], map[], start), {}, ops)
    requires (rt, c.IndexOf(loginType, loginId)) in RunAfter(c, State(map[], map[], start), {}, ops).1
    ensures var db := RunAfter(c, State(map[], map[], start), {}, ops).0;
            Validate(c, RevokeAll(c, db, loginType, loginId), rt).1 == Err(RefreshTokenNotFound)
  {
    var (db, h) := RunAfter(c, State(map[], map[], start), {}, ops);
    RunKeepsListed(c, State(map[], map[], start), {}, ops);
    var index := c.IndexOf(loginType, loginId);
    DeleteEachEffect(c, db, db.Members(index));
    assert KeyOfSome(c, db.Members(index), c.RefreshKey(rt));
  }

  /** Such are all runs whose tokens name no index. */
  lemma PlainRunsQualify(c: Config, start: int, ops: seq<Op>)
    requires PlainTokens(c, ops)
    ensures NeverCuts(c, State(map[], map[], start), {}, ops)
  {
    PlainNeverCuts(c, State(map[], map[], start), {}, ops);
  }

  /** Whatever was stored for other accounts, `rt` was only ever stored for this one. */
  predicate StoredOnlyUnder(c: Config, ops: seq<Op>, rt: string, index: Key) {
    forall i :: 0 <= i < |ops| && Stores(ops[i], rt) ==> c.IndexOf(ops[i].loginType, ops[i].loginId) == index
  }

  lemma {:induction false} StoredStaysListed(c: Config, db: Db, h: Holdings, ops: seq<Op>, t: string, id: string, rt: string)
    requires PlainState(c, db) && PlainTokens(c, ops) && StoredOnlyUnder(c, ops, rt, c.IndexOf(t, id))
    requires c.RefreshKey(rt) in db.scalars ==> rt in db.Members(c.IndexOf(t, id))
    ensures var last := RunAfter(c, db, h, ops).0;
            Lasting(last) && (c.RefreshKey(rt) in last.scalars ==> rt in last.Members(c.IndexOf(t, id)))
    decreases |ops|
  {
    if ops != [] {
      assert PlainToken(c, ops[0]) && (Stores(ops[0], rt) ==> c.IndexOf(ops[0].loginType, ops[0].loginId) == c.IndexOf(t, id));
      PlainDropsNoIndex(c, db, ops[0], t, id);
      AfterHasEffect(c, db, ops[0]);
      forall i | 0 <= i < |ops[1..]| ensures ops[1..][i] == ops[i + 1] {
      }
      StoredStaysListed(c, After(c, db, ops[0]), Held(c, db, ops[0], h), ops[1..], t, id, rt);
    }
  }

  /** A token that was only ever stored for one account is invalid after that account is revoked, held or not. */
  lemma RevokeEndsEveryStoredToken(c: Config, start: int, ops: seq<Op>, loginType: string, loginId: string, rt: string)
    requires PlainTokens(c, ops) && StoredOnlyUnder(c, ops, rt, c.IndexOf(loginType, loginId))
    ensures var db := RunAfter(c, State(map[], map[], start), {}, ops).0;
            Validate(c, RevokeAll(c, db, loginType, loginId), rt).1 == Err(RefreshTokenNotFound)
  {
    var db := RunAfter(c, State(map[], map[], start), {}, ops).0;
    StoredStaysListed(c, State(map[], map[], start), {}, ops, loginType, loginId, rt);
    var tokens := db.Members(c.IndexOf(loginType, loginId));
    DeleteEachEffect(c, db, tokens);
    assert SameEntry(DeleteEach(c, db, tokens), db, c.RefreshKey(rt)) || KeyOfSome(c, tokens, c.RefreshKey(rt));
    assert rt in tokens ==> KeyOfSome(c, tokens, c.RefreshKey(rt));
  }

  /**
   The cut happens, for any account and any token whose key is its index: deleting that token leaves the
   account's other tokens valid after a revoke. `NamesNamespace` says which token that is.
   */
  lemma DeletedIndexDefeatsRevoke(c: Config, start: int, rt: string, access: string, loginType: string, loginId: string, named: string)
    requires rt != named && loginId != "" && c.RefreshKey(named) == c.IndexOf(loginType, loginId)
    ensures var ops := [StoreOp(rt, access, loginType, loginId, None), DeleteOp(named)];
            var db := RunAfter(c, State(map[], map[], start), {}, ops).0;
            Validate(c, RevokeAll(c, db, loginType, loginId), rt).1 == Ok(loginId)
  {
    var empty: Db := State(map[], map[], start);
    var store, delete := StoreOp(rt, access, loginType, loginId, None), DeleteOp(named);
    var stored := After(c, empty, store);
    var db := DeleteRefresh(c, stored, named);
    assert [store, delete][1..] == [delete] && [delete][1..] == [];
    assert RunAfter(c, stored, Held(c, empty, store, {}), [delete]).0 == db;
    c.RefreshKeysApart();
    DeleteEffect(c, stored, named);
    assert SameEntry(db, stored, c.RefreshKey(rt));
    assert db.Members(c.IndexOf(loginType, loginId)) == [];
    RevokeExactly(c, db, loginType, loginId, rt);
  }

  /** In both layouts the untyped account of a login id has such a token. */
  lemma OwnIndexToken(c: Config, loginId: string)
    ensures c.RefreshKey("user:" + loginId) == c.IndexOf("", loginId)
  {
    if c.keys.layout.ThreeSegment? {
      NamesNamespace(c, "user:" + loginId, "", loginId);
    } else {
      assert "login:refresh:" + ("user:" + loginId) == "login" + ":refresh:user:" + loginId;
      NamesFourSegments(c, "user:" + loginId, "", loginId);
    }
  }

  // ---------- What login types come to ----------

  /** Accounts of this login type have the keys of the default account. */
  predicate SharesDefault(keys: Keys.SaKeys, loginType: string) {
    match keys.layout
    case ThreeSegment => Keys.IsDefaultLoginType(loginType)
    case JavaFourSegment => loginType == Keys.LOGIN_TYPE_DEFAULT
  }

  lemma {:induction false} EscapeIsNoShorter(id: string)
    ensures |Keys.Escape(id)| >= |id|
  {
    if id != "" {
      EscapeIsNoShorter(id[1..]);
    }
  }

  lemma DefaultKeysExactly(keys: Keys.SaKeys, category: string, loginType: string, loginId: string)
    ensures keys.Account(category, loginType, loginId) == keys.Account(category, Keys.LOGIN_TYPE_DEFAULT, loginId)
            <==> SharesDefault(keys, loginType)
  {
    EscapeIsNoShorter(loginId);
    if keys.layout.JavaFourSegment? {
      var lt := Keys.SaKeys.OrLogin(loginType);
      var a, b := keys.Account(category, loginType, loginId), keys.Account(category, Keys.LOGIN_TYPE_DEFAULT, loginId);
      var n := |keys.root| + 1;
      if a == b {
        assert |lt| == |Keys.LOGIN_TYPE_DEFAULT|;
        assert lt == a[n..n + |lt|] == b[n..n + |lt|] == Keys.LOGIN_TYPE_DEFAULT;
      }
    }
  }

  /**
   Deleting a freshly stored token takes it off the index it was stored under exactly when that is the
   default account's index, or is kept under the token's own key.
   */
  lemma DeleteUnlistsExactly(c: Config, db: Db, rt: string, access: string, loginType: string, loginId: string, extra: Option<string>)
    ensures var stored := StoreRefresh(c, db, rt, access, loginType, loginId, extra);
            rt !in DeleteRefresh(c, stored, rt).Members(c.IndexOf(loginType, loginId)) <==>
              SharesDefault(c.keys, loginType) || c.RefreshKey(rt) == c.IndexOf(loginType, loginId)
  {
    DefaultKeysExactly(c.keys, "refresh:user", loginType, loginId);
    var stored := StoreRefresh(c, db, rt, access, loginType, loginId, extra);
    assert Stored(c, stored, rt).Some? && rt in stored.Members(c.IndexOf(loginType, loginId));
  }

  /** For one: token "r1" of alice's account of type "admin" is still listed there after it was deleted. */
  lemma AdminTokenStaysListed(c: Config, db: Db, access: string)
    ensures var stored := StoreRefresh(c, db, "r1", access, "admin", "alice", None);
            "r1" in DeleteRefresh(c, stored, "r1").Members(c.IndexOf("admin", "alice"))
  {
    DeleteUnlistsExactly(c, db, "r1", access, "admin", "alice", None);
    if c.RefreshKey("r1") == c.IndexOf("admin", "alice") {
      NamesItsIndex(c, "r1", "admin", "alice");
      PlainR1();
    }
  }

  lemma PlainR1()
    ensures !("user:" <= "r1") && !Contains("login:refresh:" + "r1", ":refresh:user:")
  {
    assert |"login:refresh:" + "r1"| == 16 && |":refresh:user:"| == 14;
    assert forall i: nat :: StandsAt("login:refresh:" + "r1", ":refresh:user:", i) ==>
      i <= 2 && ("login:refresh:" + "r1")[i..i + 14][0] == ':';
  }

  lemma RefreshFiles(c: Config, db: Db, rt: string, r: RefreshRecord, loginType: string, next: string)
    requires r.accessToken != next && c.timeout != 0 && next !in db.Members(c.LoginIndexOf(loginType, r.loginId))
    ensures var after := Stage(c, db, rt, r, next, WRITES);
            && Points(c, after, TokenId(next), Identity(Keys.LOGIN_TYPE_DEFAULT, r.loginId), db.now)
            && (next in after.Members(c.LoginIndexOf(loginType, r.loginId)) <==> SharesDefault(c.keys, loginType))
  {
    DefaultKeysExactly(c.keys, "login:tokens", loginType, r.loginId);
    MappingsHaveShape(c, db, rt, r, next, WRITES);
    IndexHasShape(c, db, rt, r, next, WRITES);
    StagesLeaveLists(c, db, rt, r, next, WRITES);
  }

  /**
   A refresh files the new access token under the default login type: it enters the login index of the
   account the refresh token was stored for exactly when that shares the default account's keys.
   */
  lemma RefreshFilesUnderDefault(c: Config, db: Db, rt: string, access: string, loginType: string, loginId: string,
                                 extra: Option<string>, next: string)
    requires loginId != "" && next != access && c.timeout != 0 && next !in db.Members(c.LoginIndexOf(loginType, loginId))
    ensures var (after, result) := Refreshed(c, StoreRefresh(c, db, rt, access, loginType, loginId, extra), rt, next);
            && result == Ok(next)
            && Points(c, after, TokenId(next), Identity(Keys.LOGIN_TYPE_DEFAULT, loginId), db.now)
            && (next in after.Members(c.LoginIndexOf(loginType, loginId)) <==> SharesDefault(c.keys, loginType))
  {
    var stored := StoreRefresh(c, db, rt, access, loginType, loginId, extra);
    RefreshFiles(c, stored, rt, Stored(c, stored, rt).value, loginType, next);
  }
}
