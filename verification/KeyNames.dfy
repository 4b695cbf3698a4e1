/**
 Every named key builder of sa-token-core/src/keys.rs:482-792, and exactly when two keys of the
 three-segment layout coincide.
 */
module KeyNames {
  import opened Wrappers
  import opened Keys

  datatype Name =
    | TokenInfo(token: string)
    | TokenIdMapping(token: string)
    | TokenSession(token: string)
    | LastActive(token: string)
    | LoginToken(loginType: string, loginId: string)
    | LoginTokenIndex(loginType: string, loginId: string)
    | AccountSession(loginType: string, loginId: string)
    | Permission(loginType: string, loginId: string)
    | Role(loginType: string, loginId: string)
    | DisableKey(loginType: string, loginId: string, service: string)
    | Safe(token: string, service: string)
    | Nonce(nonce: string)
    | Refresh(token: string)
    | RefreshUserIndex(loginType: string, loginId: string)
    | OAuth2Client(id: string)
    | OAuth2Code(code: string)
    | OAuth2Token(token: string)
    | OAuth2Refresh(token: string)
    | SsoTicket(id: string)
    | SsoSession(loginId: string)
    | Online(loginId: string, token: string)
    | OnlineWithType(loginType: string, loginId: string, token: string)
    | OnlineIndex(loginId: string)
    | OnlineIndexWithType(loginType: string, loginId: string)
    | OnlineUsersSet
    | DistributedSession(id: string)
    | DistributedSessionIndex(loginId: string)
    | DistributedService(id: string)
    | SameTokenCurrent
    | SameTokenPast
    | SignNonce(nonce: string)
    | TempToken(namespace: string, token: string)
    | TempIndex(namespace: string, digest: string)

  /** The text of a key in the three-segment layout, as its builder makes it. */
  function Text(root: string, name: Name): string {
    var keys := SaKeys(root, ThreeSegment);
    match name
    case TokenInfo(token) => keys.Global("token", token, None)
    case TokenIdMapping(token) => keys.Global("token-id", token, None)
    case TokenSession(token) => keys.Global("token-session", token, None)
    case LastActive(token) => keys.Global("last-active", token, None)
    case LoginToken(t, id) => keys.Account("login:token", t, id)
    case LoginTokenIndex(t, id) => keys.Account("login:tokens", t, id)
    case AccountSession(t, id) => keys.Account("session", t, id)
    case Permission(t, id) => keys.Account("permission", t, id)
    case Role(t, id) => keys.Account("role", t, id)
    case DisableKey(t, id, service) => keys.Disable(t, id, service)
    case Safe(token, service) => keys.Global("safe", token, None) + ":" + service
    case Nonce(nonce) => keys.Global("nonce", nonce, None)
    case Refresh(token) => keys.Global("refresh", token, None)
    case RefreshUserIndex(t, id) => keys.Account("refresh:user", t, id)
    case OAuth2Client(id) => keys.Global("oauth2:client", id, None)
    case OAuth2Code(code) => keys.Global("oauth2:code", code, None)
    case OAuth2Token(token) => keys.Global("oauth2:token", token, None)
    case OAuth2Refresh(token) => keys.Global("oauth2:refresh", token, None)
    case SsoTicket(id) => keys.Global("sso:ticket", id, None)
    case SsoSession(id) => keys.Global("sso:session", id, None)
    case Online(id, token) => keys.Global("online", id, None) + ":" + token
    case OnlineWithType(t, id, token) => keys.Account("online", t, id) + ":" + token
    case OnlineIndex(id) => keys.Global("online:index", id, None)
    case OnlineIndexWithType(t, id) => keys.Account("online:index", t, id)
    case OnlineUsersSet => keys.Global("online", "users", None)
    case DistributedSession(id) => keys.Global("dsession", id, None)
    case DistributedSessionIndex(id) => keys.Global("dsession:index", id, None)
    case DistributedService(id) => keys.Global("dservice", id, None)
    case SameTokenCurrent => keys.Global("var", "same-token", None)
    case SameTokenPast => keys.Global("var", "same-token-past", None)
    case SignNonce(nonce) => keys.Global("sign-nonce", nonce, None)
    case TempToken(ns, token) => keys.Global("temp-token:" + ns, token, None)
    case TempIndex(ns, digest) => keys.Global("temp-index:" + ns, digest, None)
  }

  function Category(name: Name): (category: string)
    ensures |category| > 2
  {
    match name
    case TokenInfo(_) => "token"
    case TokenIdMapping(_) => "token-id"
    case TokenSession(_) => "token-session"
    case LastActive(_) => "last-active"
    case LoginToken(_, _) => "login:token"
    case LoginTokenIndex(_, _) => "login:tokens"
    case AccountSession(_, _) => "session"
    case Permission(_, _) => "permission"
    case Role(_, _) => "role"
    case DisableKey(_, _, _) => "disable"
    case Safe(_, _) => "safe"
    case Nonce(_) => "nonce"
    case Refresh(_) => "refresh"
    case RefreshUserIndex(_, _) => "refresh:user"
    case OAuth2Client(_) => "oauth2:client"
    case OAuth2Code(_) => "oauth2:code"
    case OAuth2Token(_) => "oauth2:token"
    case OAuth2Refresh(_) => "oauth2:refresh"
    case SsoTicket(_) => "sso:ticket"
    case SsoSession(_) => "sso:session"
    case Online(_, _) => "online"
    case OnlineWithType(_, _, _) => "online"
    case OnlineUsersSet => "online"
    case OnlineIndex(_) => "online:index"
    case OnlineIndexWithType(_, _) => "online:index"
    case DistributedSession(_) => "dsession"
    case DistributedSessionIndex(_) => "dsession:index"
    case DistributedService(_) => "dservice"
    case SameTokenCurrent => "var"
    case SameTokenPast => "var"
    case SignNonce(_) => "sign-nonce"
    case TempToken(ns, _) => "temp-token:" + ns
    case TempIndex(ns, _) => "temp-index:" + ns
  }

  /** What follows the category and its colon. */
  function Tail(name: Name): string {
    match name
    case LoginToken(t, id) => AccountNs(t, id)
    case LoginTokenIndex(t, id) => AccountNs(t, id)
    case AccountSession(t, id) => AccountNs(t, id)
    case Permission(t, id) => AccountNs(t, id)
    case Role(t, id) => AccountNs(t, id)
    case DisableKey(t, id, service) => AccountNs(t, id) + ":" + service
    case Safe(token, service) => token + ":" + service
    case RefreshUserIndex(t, id) => AccountNs(t, id)
    case Online(id, token) => id + ":" + token
    case OnlineWithType(t, id, token) => AccountNs(t, id) + ":" + token
    case OnlineIndexWithType(t, id) => AccountNs(t, id)
    case OnlineUsersSet => "users"
    case SameTokenCurrent => "same-token"
    case SameTokenPast => "same-token-past"
    case TokenInfo(token) => token
    case TokenIdMapping(token) => token
    case TokenSession(token) => token
    case LastActive(token) => token
    case Nonce(nonce) => nonce
    case Refresh(token) => token
    case OAuth2Client(id) => id
    case OAuth2Code(code) => code
    case OAuth2Token(token) => token
    case OAuth2Refresh(token) => token
    case SsoTicket(id) => id
    case SsoSession(id) => id
    case OnlineIndex(id) => id
    case DistributedSession(id) => id
    case DistributedSessionIndex(id) => id
    case DistributedService(id) => id
    case SignNonce(nonce) => nonce
    case TempToken(_, token) => token
    case TempIndex(_, digest) => digest
  }

  lemma TextShape(root: string, name: Name)
    ensures Text(root, name) == root + (Category(name) + ":" + Tail(name))
  {
    var keys := SaKeys(root, ThreeSegment);
    if name.LoginToken? || name.LoginTokenIndex? || name.AccountSession? || name.Permission? || name.Role?
       || name.DisableKey? || name.RefreshUserIndex? || name.OnlineWithType? || name.OnlineIndexWithType? {
      keys.AccountIsGlobalOfNs(if name.DisableKey? then "disable" else Category(name), name.loginType, name.loginId);
    }
    Reassociate(root, Category(name), Tail(name));
    match name
    case DisableKey(t, id, service) => Suffix(root, "disable", AccountNs(t, id), service);
    case Safe(token, service) => Suffix(root, "safe", token, service);
    case Online(id, token) => Suffix(root, "online", id, token);
    case OnlineWithType(t, id, token) => Suffix(root, "online", AccountNs(t, id), token);
    case _ =>
  }

  lemma Reassociate(root: string, category: string, tail: string)
    ensures root + category + ":" + tail == root + (category + ":" + tail)
  {
  }

  lemma Suffix(root: string, category: string, id: string, rest: string)
    ensures root + category + ":" + id + ":" + rest == root + (category + ":" + (id + ":" + rest))
  {
  }

  // ---------- Exactly when two keys coincide ----------

  /** Category `c` followed by a colon is a prefix of category `d`. */
  predicate Nests(c: string, d: string) {
    |c| < |d| && d[..|c|] == c && d[|c|] == ':'
  }

  function Inner(c: string, d: string): string
    requires Nests(c, d)
  {
    d[|c| + 1..]
  }

  lemma ColonSplit(c: string, x: string, d: string, y: string)
    requires c + ":" + x == d + ":" + y && |c| < |d|
    ensures Nests(c, d) && x == Inner(c, d) + ":" + y
  {
    var s := c + ":" + x;
    assert s[..|c|] == c && s[..|c|] == d[..|c|];
    assert s[|c|] == ':' && s[|c|] == d[|c|];
    assert s[|c| + 1..] == x;
    assert d + ":" + y == d[..|c|] + ":" + (Inner(c, d) + ":" + y) by {
      assert d == d[..|c|] + ":" + Inner(c, d);
    }
    assert s[|c| + 1..] == Inner(c, d) + ":" + y;
  }

  /** Two keys are equal exactly when category and tail are, or one category nests in the other. */
  lemma KeysCoincide(root: string, a: Name, b: Name)
    ensures Text(root, a) == Text(root, b) <==>
            || (Category(a) == Category(b) && Tail(a) == Tail(b))
            || (Nests(Category(a), Category(b)) && Tail(a) == Inner(Category(a), Category(b)) + ":" + Tail(b))
            || (Nests(Category(b), Category(a)) && Tail(b) == Inner(Category(b), Category(a)) + ":" + Tail(a))
  {
    TextShape(root, a);
    TextShape(root, b);
    SameAfter(root, Category(a) + ":" + Tail(a), Category(b) + ":" + Tail(b));
    SplitsCoincide(Category(a), Tail(a), Category(b), Tail(b));
  }

  lemma SplitsCoincide(c: string, x: string, d: string, y: string)
    ensures c + ":" + x == d + ":" + y <==>
            || (c == d && x == y)
            || (Nests(c, d) && x == Inner(c, d) + ":" + y)
            || (Nests(d, c) && y == Inner(d, c) + ":" + x)
  {
    if c + ":" + x == d + ":" + y {
      if |c| < |d| {
        ColonSplit(c, x, d, y);
      } else if |d| < |c| {
        ColonSplit(d, y, c, x);
      } else {
        assert c == (c + ":" + x)[..|c|] == d;
        assert x == (c + ":" + x)[|c| + 1..] == y;
      }
    }
    if Nests(c, d) && x == Inner(c, d) + ":" + y {
      NestedText(c, d, y);
    }
    if Nests(d, c) && y == Inner(d, c) + ":" + x {
      NestedText(d, c, x);
    }
  }

  lemma NestedText(c: string, d: string, y: string)
    requires Nests(c, d)
    ensures c + ":" + (Inner(c, d) + ":" + y) == d + ":" + y
  {
    assert d == c + ":" + Inner(c, d);
  }

  // ---------- Which named categories nest ----------

  lemma NestsAgrees(c: string, d: string)
    requires Nests(c, d) && |c| > 2
    ensures c[0] == d[0] && c[1] == d[1] && c[2] == d[2] && d[|c|] == ':'
  {
    assert d[..|c|][0] == d[0] && d[..|c|][1] == d[1] && d[..|c|][2] == d[2];
  }

  /** The namespaced categories start with their constant part. */
  lemma TempCategory(a: Name)
    ensures (a.TempToken? || a.TempIndex?) ==> |Category(a)| >= 11 && Category(a)[0] == 't'
  {
  }

  lemma OuterOfRefreshUser(a: Name)
    requires Nests(Category(a), "refresh:user")
    ensures a.Refresh?
  {
    TempCategory(a);
    NestsAgrees(Category(a), "refresh:user");
  }

  lemma OuterOfOnlineIndex(a: Name)
    requires Nests(Category(a), "online:index")
    ensures a.Online? || a.OnlineWithType? || a.OnlineUsersSet?
  {
    TempCategory(a);
    NestsAgrees(Category(a), "online:index");
  }

  lemma OuterOfDistributedIndex(a: Name)
    requires Nests(Category(a), "dsession:index")
    ensures a.DistributedSession?
  {
    TempCategory(a);
    NestsAgrees(Category(a), "dsession:index");
    assert "dsession:index"[..8][3] == 's' && "dservice"[3] == 'r';
  }

  lemma OuterOfNone(a: Name, b: Name)
    requires b.LoginToken? || b.LoginTokenIndex? || b.OAuth2Client? || b.OAuth2Code? || b.OAuth2Token? || b.OAuth2Refresh?
             || b.SsoTicket? || b.SsoSession?
    ensures !Nests(Category(a), Category(b))
  {
    if Nests(Category(a), Category(b)) {
        NestsAgrees(Category(a), Category(b));
      FirstColon(b);
      NoneStartsSo(a);
    }
  }

  predicate Starts(c: string, x: char, y: char, z: char) {
    |c| > 2 && c[0] == x && c[1] == y && c[2] == z
  }

  /** In these categories the only colon ends one of three short words. */
  lemma FirstColon(b: Name)
    requires b.LoginToken? || b.LoginTokenIndex? || b.OAuth2Client? || b.OAuth2Code? || b.OAuth2Token? || b.OAuth2Refresh?
             || b.SsoTicket? || b.SsoSession?
    ensures var d := Category(b);
            |d| > 2 && (Starts(d, 'l', 'o', 'g') || Starts(d, 'o', 'a', 'u') || Starts(d, 's', 's', 'o'))
            && forall i :: 0 <= i < |d| && d[i] == ':' ==> i == (if d[0] == 'l' then 5 else if d[0] == 'o' then 6 else 3)
  {
  }

  /** No category is one of those three words. */
  lemma NoneStartsSo(a: Name)
    requires |Category(a)| > 2
    ensures Starts(Category(a), 'l', 'o', 'g') ==> |Category(a)| != 5
    ensures Starts(Category(a), 'o', 'a', 'u') ==> |Category(a)| != 6
    ensures Starts(Category(a), 's', 's', 'o') ==> |Category(a)| != 3
  {
  }

  lemma OuterOfTemp(a: Name, b: Name)
    requires b.TempToken? || b.TempIndex?
    requires Nests(Category(a), Category(b))
    ensures (a.TempToken? && b.TempToken?) || (a.TempIndex? && b.TempIndex?)
    ensures Nests(a.namespace, b.namespace)
  {
    NestsAgrees(Category(a), Category(b));
    OnlyTempStartsSo(a);
    var start := if a.TempToken? then "temp-token:" else "temp-index:";
    var other := if b.TempToken? then "temp-token:" else "temp-index:";
    assert "temp-token:"[5] != "temp-index:"[5];
    StartsAgree(start, a.namespace, other, b.namespace);
    SameStart(start, a.namespace, b.namespace);
  }

  lemma OnlyTempStartsSo(a: Name)
    requires |Category(a)| > 2 && Category(a)[0] == 't' && Category(a)[1] == 'e'
    ensures a.TempToken? || a.TempIndex?
  {
  }

  lemma SameStart(start: string, m: string, n: string)
    requires Nests(start + m, start + n)
    ensures Nests(m, n)
  {
    var c, d := start + m, start + n;
    assert m == c[|start|..] && n == d[|start|..];
    assert c == d[..|c|];
    assert n[..|m|] == m;
  }

  lemma StartsAgree(start: string, m: string, other: string, n: string)
    requires |start| == |other| && Nests(start + m, other + n)
    ensures start == other
  {
    var c, d := start + m, other + n;
    assert start == c[..|start|] && other == d[..|start|];
    assert c == d[..|c|];
  }

  /** Among all named builders only these categories nest. */
  lemma NestingCategories(a: Name, b: Name)
    requires Nests(Category(a), Category(b))
    ensures || (a.Refresh? && b.RefreshUserIndex?)
            || ((a.Online? || a.OnlineWithType? || a.OnlineUsersSet?) && (b.OnlineIndex? || b.OnlineIndexWithType?))
            || (a.DistributedSession? && b.DistributedSessionIndex?)
            || (a.TempToken? && b.TempToken? && Nests(a.namespace, b.namespace))
            || (a.TempIndex? && b.TempIndex? && Nests(a.namespace, b.namespace))
  {
    match b
    case RefreshUserIndex(_, _) => OuterOfRefreshUser(a);
    case OnlineIndex(_) => OuterOfOnlineIndex(a);
    case OnlineIndexWithType(_, _) => OuterOfOnlineIndex(a);
    case DistributedSessionIndex(_) => OuterOfDistributedIndex(a);
    case TempToken(_, _) => OuterOfTemp(a, b);
    case TempIndex(_, _) => OuterOfTemp(a, b);
    case _ => OuterOfPlain(a, b);
  }

  lemma OuterOfPlain(a: Name, b: Name)
    requires !b.RefreshUserIndex? && !b.OnlineIndex? && !b.OnlineIndexWithType? && !b.DistributedSessionIndex?
             && !b.TempToken? && !b.TempIndex?
    ensures !Nests(Category(a), Category(b))
  {
    if b.LoginToken? || b.LoginTokenIndex? || b.OAuth2Client? || b.OAuth2Code? || b.OAuth2Token? || b.OAuth2Refresh?
       || b.SsoTicket? || b.SsoSession? {
      OuterOfNone(a, b);
    } else {
      NoColonInCategory(b);
    }
  }

  lemma NoColonInCategory(b: Name)
    requires !b.RefreshUserIndex? && !b.OnlineIndex? && !b.OnlineIndexWithType? && !b.DistributedSessionIndex?
             && !b.TempToken? && !b.TempIndex?
    requires !b.LoginToken? && !b.LoginTokenIndex? && !b.OAuth2Client? && !b.OAuth2Code? && !b.OAuth2Token?
             && !b.OAuth2Refresh? && !b.SsoTicket? && !b.SsoSession?
    ensures ':' !in Category(b)
  {
  }

  // ---------- Ids without a colon ----------

  predicate ColonFree(name: Name) {
    match name
    case LoginToken(t, id) => ':' !in t && ':' !in id
    case LoginTokenIndex(t, id) => ':' !in t && ':' !in id
    case AccountSession(t, id) => ':' !in t && ':' !in id
    case Permission(t, id) => ':' !in t && ':' !in id
    case Role(t, id) => ':' !in t && ':' !in id
    case DisableKey(t, id, service) => ':' !in t && ':' !in id && ':' !in service
    case Safe(token, service) => ':' !in token && ':' !in service
    case RefreshUserIndex(t, id) => ':' !in t && ':' !in id
    case Online(id, token) => ':' !in id && ':' !in token
    case OnlineWithType(t, id, token) => ':' !in t && ':' !in id && ':' !in token
    case OnlineIndexWithType(t, id) => ':' !in t && ':' !in id
    case TempToken(ns, token) => ':' !in ns && ':' !in token
    case TempIndex(ns, digest) => ':' !in ns && ':' !in digest
    case _ => ':' !in Tail(name)
  }

  predicate OnlineRecord(name: Name) {
    name.Online? || name.OnlineWithType?
  }

  predicate OnlineIndexKey(name: Name) {
    name.OnlineIndex? || name.OnlineIndexWithType?
  }

  /**
   Arguments without a colon keep different categories apart, with one exception: the online record
   of a login id (or login type) that is literally "index" has a two-part tail and meets online:index.
   */
  lemma ColonFreeKeysMeetOnlyOnline(root: string, a: Name, b: Name)
    requires ColonFree(a) && ColonFree(b) && Category(a) != Category(b)
    ensures Text(root, a) == Text(root, b) <==>
            || (OnlineRecord(a) && OnlineIndexKey(b) && Tail(a) == "index" + ":" + Tail(b))
            || (OnlineRecord(b) && OnlineIndexKey(a) && Tail(b) == "index" + ":" + Tail(a))
  {
    KeysCoincide(root, a, b);
    NestedColonFree(a, b);
    NestedColonFree(b, a);
  }

  lemma NestedColonFree(a: Name, b: Name)
    requires ColonFree(a) && ColonFree(b)
    ensures (Nests(Category(a), Category(b)) && Tail(a) == Inner(Category(a), Category(b)) + ":" + Tail(b)) <==>
            (OnlineRecord(a) && OnlineIndexKey(b) && Tail(a) == "index" + ":" + Tail(b))
  {
    if OnlineRecord(a) && OnlineIndexKey(b) {
      OnlineNests(a, b);
    } else if Nests(Category(a), Category(b)) {
      NestedTailHasColon(a, b, Inner(Category(a), Category(b)));
    }
  }

  lemma NestedTailHasColon(a: Name, b: Name, inner: string)
    requires ColonFree(a) && ColonFree(b) && Nests(Category(a), Category(b))
    requires !(OnlineRecord(a) && OnlineIndexKey(b))
    ensures Tail(a) != inner + ":" + Tail(b)
  {
    NestingCategories(a, b);
    NoColonInTail(a, b);
    assert (inner + ":" + Tail(b))[|inner|] == ':';
  }

  lemma OnlineNests(a: Name, b: Name)
    requires OnlineRecord(a) && OnlineIndexKey(b)
    ensures Nests(Category(a), Category(b)) && Inner(Category(a), Category(b)) == "index"
  {
    assert Category(a) == "online" && Category(b) == "online:index";
    assert "online:index"[..6] == "online" && "online:index"[7..] == "index";
  }

  lemma NoColonInTail(a: Name, b: Name)
    requires ColonFree(a) && ColonFree(b) && Nests(Category(a), Category(b)) && !OnlineRecord(a)
    ensures ':' !in Tail(a)
  {
    NestingCategories(a, b);
    if a.TempToken? || a.TempIndex? {
      NestedNamespace(a, b);
    }
  }

  /** A namespace nested in another shows a colon in the longer one. */
  lemma NestedNamespace(a: Name, b: Name)
    requires (a.TempToken? && b.TempToken?) || (a.TempIndex? && b.TempIndex?)
    requires Nests(a.namespace, b.namespace)
    ensures !ColonFree(b)
  {
    assert b.namespace[|a.namespace|] == ':';
  }

  /** The exception is real: login id "index", any token. */
  lemma OnlineIndexMeetsOnline(root: string, token: string)
    ensures Text(root, Online("index", token)) == Text(root, OnlineIndex(token))
    ensures Category(Online("index", token)) != Category(OnlineIndex(token))
  {
    TextShape(root, Online("index", token));
    TextShape(root, OnlineIndex(token));
    assert "online" + ":" + ("index" + ":" + token) == "online:index" + ":" + token;
  }

  /** Session bodies, per-login indexes and service credentials of colon-free ids never share a key. */
  lemma DistributedKeysApart(root: string, a: Name, b: Name)
    requires Distributed(a) && Distributed(b)
    requires (a.DistributedSession? ==> ':' !in a.id) && (b.DistributedSession? ==> ':' !in b.id)
    ensures Text(root, a) == Text(root, b) <==> a == b
  {
    KeysCoincide(root, a, b);
    DistributedNest(a, b);
    DistributedNest(b, a);
    if Category(a) == Category(b) && Tail(a) == Tail(b) {
      DistributedNamed(a, b);
    }
  }

  predicate Distributed(a: Name) {
    a.DistributedSession? || a.DistributedSessionIndex? || a.DistributedService?
  }

  /** Category and tail name one of these keys. */
  lemma DistributedNamed(a: Name, b: Name)
    requires Distributed(a) && Distributed(b) && Category(a) == Category(b) && Tail(a) == Tail(b)
    ensures a == b
  {
    assert "dsession"[3] != "dservice"[3];
    assert |"dsession:index"| == 14;
  }

  lemma DistributedNest(a: Name, b: Name)
    requires Distributed(a) && Distributed(b)
    requires a.DistributedSession? ==> ':' !in a.id
    ensures !(Nests(Category(a), Category(b)) && Tail(a) == Inner(Category(a), Category(b)) + ":" + Tail(b))
  {
    if Nests(Category(a), Category(b)) {
      NestingCategories(a, b);
      assert (Inner(Category(a), Category(b)) + ":" + Tail(b))[|Inner(Category(a), Category(b))|] == ':';
    }
  }
}
