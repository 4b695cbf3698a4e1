/**
 The key texts spelled out, for every named builder in the three-segment layout and for the four-segment
 layout, as sa-token-core/src/keys.rs:482-792 and its tests at :887-1020 give them.
 */
module KeyTexts {
  import opened Wrappers
  import opened Keys
  import opened KeyNames

  lemma Spelled(root: string, category: string, prefix: string, id: string)
    requires category + ":" == prefix
    ensures root + category + ":" + id == root + prefix + id
  {
  }

  /** Keys named by one argument: the prefix, then the argument as it is. */
  lemma TokenTexts(root: string, x: string)
    ensures Text(root, TokenInfo(x)) == root + "token:" + x
    ensures Text(root, TokenIdMapping(x)) == root + "token-id:" + x
    ensures Text(root, TokenSession(x)) == root + "token-session:" + x
    ensures Text(root, LastActive(x)) == root + "last-active:" + x
  {
    Spelled(root, "token", "token:", x);
    Spelled(root, "token-id", "token-id:", x);
    Spelled(root, "token-session", "token-session:", x);
    Spelled(root, "last-active", "last-active:", x);
  }

  lemma NonceTexts(root: string, x: string)
    ensures Text(root, Nonce(x)) == root + "nonce:" + x
    ensures Text(root, SignNonce(x)) == root + "sign-nonce:" + x
    ensures Text(root, Refresh(x)) == root + "refresh:" + x
  {
    Spelled(root, "nonce", "nonce:", x);
    Spelled(root, "sign-nonce", "sign-nonce:", x);
    Spelled(root, "refresh", "refresh:", x);
  }

  lemma OAuth2Texts(root: string, x: string)
    ensures Text(root, OAuth2Client(x)) == root + "oauth2:client:" + x
    ensures Text(root, OAuth2Code(x)) == root + "oauth2:code:" + x
    ensures Text(root, OAuth2Token(x)) == root + "oauth2:token:" + x
    ensures Text(root, OAuth2Refresh(x)) == root + "oauth2:refresh:" + x
  {
    Spelled(root, "oauth2:client", "oauth2:client:", x);
    Spelled(root, "oauth2:code", "oauth2:code:", x);
    Spelled(root, "oauth2:token", "oauth2:token:", x);
    Spelled(root, "oauth2:refresh", "oauth2:refresh:", x);
  }

  lemma SsoTexts(root: string, x: string)
    ensures Text(root, SsoTicket(x)) == root + "sso:ticket:" + x
    ensures Text(root, SsoSession(x)) == root + "sso:session:" + x
    ensures Text(root, OnlineIndex(x)) == root + "online:index:" + x
  {
    Spelled(root, "sso:ticket", "sso:ticket:", x);
    Spelled(root, "sso:session", "sso:session:", x);
    Spelled(root, "online:index", "online:index:", x);
  }

  lemma ClusterTexts(root: string, x: string)
    ensures Text(root, DistributedSession(x)) == root + "dsession:" + x
    ensures Text(root, DistributedSessionIndex(x)) == root + "dsession:index:" + x
    ensures Text(root, DistributedService(x)) == root + "dservice:" + x
  {
    Spelled(root, "dsession", "dsession:", x);
    Spelled(root, "dsession:index", "dsession:index:", x);
    Spelled(root, "dservice", "dservice:", x);
  }

  lemma FixedTexts(root: string)
    ensures Text(root, OnlineUsersSet) == root + "online:" + "users"
    ensures Text(root, SameTokenCurrent) == root + "var:" + "same-token"
    ensures Text(root, SameTokenPast) == root + "var:" + "same-token-past"
  {
    Spelled(root, "online", "online:", "users");
    Spelled(root, "var", "var:", "same-token");
    Spelled(root, "var", "var:", "same-token-past");
  }

  /** Keys named by two arguments. */
  lemma PairTexts(root: string, x: string, y: string)
    ensures Text(root, Safe(x, y)) == root + "safe:" + x + ":" + y
    ensures Text(root, Online(x, y)) == root + "online:" + x + ":" + y
  {
    Spelled(root, "safe", "safe:", x);
    Spelled(root, "online", "online:", x);
  }

  lemma TempTexts(root: string, x: string, y: string)
    ensures Text(root, TempToken(x, y)) == root + ("temp-token:" + x) + ":" + y
    ensures Text(root, TempIndex(x, y)) == root + ("temp-index:" + x) + ":" + y
  {
  }

  /** What an account key ends in: the id alone for the default types, else the type and the escaped id. */
  function AccountTail(t: string, id: string): string {
    if t in {"", "default", "login"} then id else t + ":" + Escape(id)
  }

  lemma AccountText(root: string, category: string, prefix: string, t: string, id: string)
    requires category + ":" == prefix
    ensures SaKeys(root, ThreeSegment).Account(category, t, id) == root + prefix + AccountTail(t, id)
  {
    SaKeys(root, ThreeSegment).AccountIsGlobalOfNs(category, t, id);
    Spelled(root, category, prefix, AccountTail(t, id));
  }

  /** Keys of an account. */
  lemma AccountTexts(root: string, t: string, id: string)
    ensures Text(root, LoginToken(t, id)) == root + "login:token:" + AccountTail(t, id)
    ensures Text(root, LoginTokenIndex(t, id)) == root + "login:tokens:" + AccountTail(t, id)
  {
    AccountText(root, "login:token", "login:token:", t, id);
    AccountText(root, "login:tokens", "login:tokens:", t, id);
  }

  lemma IndexTexts(root: string, t: string, id: string)
    ensures Text(root, RefreshUserIndex(t, id)) == root + "refresh:user:" + AccountTail(t, id)
    ensures Text(root, OnlineIndexWithType(t, id)) == root + "online:index:" + AccountTail(t, id)
  {
    AccountText(root, "refresh:user", "refresh:user:", t, id);
    AccountText(root, "online:index", "online:index:", t, id);
  }

  lemma GrantTexts(root: string, t: string, id: string)
    ensures Text(root, AccountSession(t, id)) == root + "session:" + AccountTail(t, id)
    ensures Text(root, Permission(t, id)) == root + "permission:" + AccountTail(t, id)
    ensures Text(root, Role(t, id)) == root + "role:" + AccountTail(t, id)
  {
    AccountText(root, "session", "session:", t, id);
    AccountText(root, "permission", "permission:", t, id);
    AccountText(root, "role", "role:", t, id);
  }

  lemma AccountPairTexts(root: string, t: string, id: string, x: string)
    ensures Text(root, DisableKey(t, id, x)) == root + "disable:" + AccountTail(t, id) + ":" + x
    ensures Text(root, OnlineWithType(t, id, x)) == root + "online:" + AccountTail(t, id) + ":" + x
  {
    AccountText(root, "disable", "disable:", t, id);
    AccountText(root, "online", "online:", t, id);
  }

  /** The four-segment layout: root, login type ("login" where none is given), category, id; a ban key ends in service and id. */
  lemma FourSegmentTexts(root: string, category: string, t: string, id: string, service: string)
    ensures var keys := SaKeys(root, JavaFourSegment);
            && keys.Global(category, id, None) == root + ":" + "login" + ":" + category + ":" + id
            && keys.Global(category, id, Some(t)) == root + ":" + t + ":" + category + ":" + id
            && keys.Account(category, t, id) == root + ":" + (if t == "" then "login" else t) + ":" + category + ":" + id
            && keys.Disable(t, id, service) == root + ":" + (if t == "" then "login" else t) + ":disable:" + service + ":" + id
            && keys.FromNs(category, id) == Err(NamespacedIdUnsupportedByLayout)
            && keys.DisableByNs(id, service) == Err(NamespacedIdUnsupportedByLayout)
  {
  }

  /** Namespaces as the tests at keys.rs:887-906 have them. */
  lemma NamespaceTexts()
    ensures AccountNs("default", "u1") == "u1" == AccountNs("login", "u1") == AccountNs("", "u1")
    ensures AccountNs("admin", "u1") == "admin:u1"
    ensures AccountNs("default", "a:b") == "a:b" && AccountNs("admin", "a:b") == "admin:a%3Ab"
    ensures AccountNs("a", "b:c") != AccountNs("a:b", "c")
  {
    assert "admin" != "login" && "a" != "login" && "a:b" != "login" by {
      assert |"a"| == 1 && |"a:b"| == 3 && "admin"[0] == 'a';
    }
    assert "a:b"[1..] == ":b" && ":b"[1..] == "b" && "b"[1..] == "" && "u1"[1..] == "1" && "1"[1..] == "";
    EscapeColonFree("u1");
    EscapeColonFree("b");
    assert Escape(":b") == "%3A" + Escape("b");
    assert Escape("a:b") == "a" + Escape(":b");
    AccountNsCollides("a", "b:c", "a:b", "c");
  }
}
