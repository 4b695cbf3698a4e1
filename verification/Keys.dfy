/** The storage key schema (sa-token-core/src/keys.rs): what the builders produce, as text. */
module Keys {
  import opened Wrappers
  import opened Seqs
  import TextOps = Text

  const LOGIN_TYPE_DEFAULT := "default"
  const LOGIN_TYPE_LOGIN := "login"
  const COLON_ESCAPE := "%3A"

  datatype Layout = ThreeSegment | JavaFourSegment

  datatype Error = NamespacedIdUnsupportedByLayout

  predicate IsDefaultLoginType(loginType: string) {
    loginType == "" || loginType == LOGIN_TYPE_DEFAULT || loginType == LOGIN_TYPE_LOGIN
  }

  function Escape(id: string): (r: string)
    ensures ':' !in r
  {
    if id == "" then "" else EscapeChar(id[0]) + Escape(id[1..])
  }

  function EscapeChar(c: char): (r: string)
    ensures ':' !in r
  {
    if c == ':' then COLON_ESCAPE else [c]
  }

  function AccountNs(loginType: string, loginId: string): string {
    if IsDefaultLoginType(loginType) then loginId else loginType + ":" + Escape(loginId)
  }

  datatype SaKeys = SaKeys(root: string, layout: Layout) {

    function Global(category: string, id: string, loginType: Option<string>): string {
      match layout
      case ThreeSegment => root + category + ":" + id
      case JavaFourSegment =>
        root + ":" + (match loginType case Some(lt) => lt case None => LOGIN_TYPE_LOGIN) + ":" + category + ":" + id
    }

    function Account(category: string, loginType: string, loginId: string): string {
      match layout
      case ThreeSegment =>
        if IsDefaultLoginType(loginType) then root + category + ":" + loginId
        else root + category + ":" + loginType + ":" + Escape(loginId)
      case JavaFourSegment =>
        root + ":" + OrLogin(loginType) + ":" + category + ":" + loginId
    }

    static function OrLogin(loginType: string): string {
      if loginType == "" then LOGIN_TYPE_LOGIN else loginType
    }

    function FromNs(category: string, ns: string): Result<string, Error> {
      if layout.JavaFourSegment? then Err(NamespacedIdUnsupportedByLayout) else Ok(Global(category, ns, None))
    }

    function Disable(loginType: string, loginId: string, service: string): string {
      match layout
      case ThreeSegment => Account("disable", loginType, loginId) + ":" + service
      case JavaFourSegment => root + ":" + OrLogin(loginType) + ":disable:" + service + ":" + loginId
    }

    function DisableByNs(ns: string, service: string): Result<string, Error> {
      if layout.JavaFourSegment? then Err(NamespacedIdUnsupportedByLayout)
      else Ok(Global("disable", ns, None) + ":" + service)
    }

    /** What stands before the category in a global key. */
    function Head(): string {
      match layout
      case ThreeSegment => root
      case JavaFourSegment => root + ":" + LOGIN_TYPE_LOGIN + ":"
    }

    lemma GlobalSplits(category: string, id: string)
      ensures Global(category, id, None) == Head() + category + ":" + id
    {
    }

    /** A global key meets one of a category nested in its own exactly when its id starts with the rest. */
    lemma NestedGlobal(category: string, inner: string, x: string, y: string)
      ensures Global(category, x, None) == Global(category + ":" + inner, y, None) <==> x == inner + ":" + y
    {
      var front := Head() + category + ":";
      GlobalSplits(category, x);
      GlobalSplits(category + ":" + inner, y);
      assert Head() + (category + ":" + inner) + ":" + y == front + (inner + ":" + y);
      SameAfter(front, x, inner + ":" + y);
    }

    lemma SameCategory(category: string, x: string, y: string)
      ensures Global(category, x, None) == Global(category, y, None) <==> x == y
    {
      GlobalSplits(category, x);
      GlobalSplits(category, y);
      SameAfter(Head() + category + ":", x, y);
    }

    /** The builders that take a raw id and those that take its namespaced form give the same text. */
    lemma ParallelBuildersAgree(loginType: string, loginId: string, service: string)
      requires layout.ThreeSegment?
      ensures FromNs("session", AccountNs(loginType, loginId)) == Ok(Account("session", loginType, loginId))
      ensures FromNs("refresh:user", AccountNs(loginType, loginId)) == Ok(Account("refresh:user", loginType, loginId))
      ensures DisableByNs(AccountNs(loginType, loginId), service) == Ok(Disable(loginType, loginId, service))
    {
      AccountIsGlobalOfNs("session", loginType, loginId);
      AccountIsGlobalOfNs("refresh:user", loginType, loginId);
      AccountIsGlobalOfNs("disable", loginType, loginId);
    }

    lemma AccountIsGlobalOfNs(category: string, loginType: string, loginId: string)
      requires layout.ThreeSegment?
      ensures Account(category, loginType, loginId) == Global(category, AccountNs(loginType, loginId), None)
    {
      if !IsDefaultLoginType(loginType) {
        assert root + category + ":" + loginType + ":" + Escape(loginId)
            == root + category + ":" + (loginType + ":" + Escape(loginId));
      }
    }
  }

  lemma SameAfter(front: string, x: string, y: string)
    ensures front + x == front + y <==> x == y
  {
    assert (front + x)[|front|..] == x && (front + y)[|front|..] == y;
  }

  // ---------- When two namespaces coincide ----------

  predicate StartsEscaped(id: string) {
    |id| >= 3 && id[0] == '%' && id[1] == '3' && id[2] == 'A'
  }

  /** Every `%3A`, from left to right, rewritten to a colon. */
  function Unescape(id: string): string {
    if id == "" then ""
    else if StartsEscaped(id) then ":" + Unescape(id[3..])
    else [id[0]] + Unescape(id[1..])
  }

  lemma {:induction false} EscapeConcat(a: string, b: string)
    ensures Escape(a + b) == Escape(a) + Escape(b)
  {
    if a == "" {
      assert a + b == b;
    } else {
      ConcatTail(a, b);
      EscapeConcat(a[1..], b);
      ConcatAssociates(EscapeChar(a[0]), Escape(a[1..]), Escape(b));
    }
  }

  lemma {:induction false} EscapeOfUnescape(id: string)
    ensures Escape(Unescape(id)) == Escape(id)
  {
    if id != "" {
      if StartsEscaped(id) {
        EscapeOfUnescape(id[3..]);
        assert id == COLON_ESCAPE + id[3..];
        EscapeConcat(COLON_ESCAPE, id[3..]);
        EscapeConcat(":", Unescape(id[3..]));
        assert Escape(COLON_ESCAPE) == COLON_ESCAPE by {
          assert COLON_ESCAPE[1..] == "3A" && "3A"[1..] == "A" && "A"[1..] == "";
        }
      } else {
        EscapeOfUnescape(id[1..]);
        EscapeConcat([id[0]], Unescape(id[1..]));
      }
    }
  }

  lemma {:induction false} UnescapeOfEscape(id: string)
    ensures Unescape(Escape(id)) == Unescape(id)
  {
    if id != "" {
      var e := Escape(id);
      if id[0] == ':' {
        UnescapeOfEscape(id[1..]);
        assert e[3..] == Escape(id[1..]);
      } else if StartsEscaped(id) {
        UnescapeOfEscape(id[3..]);
        assert id == COLON_ESCAPE + id[3..];
        EscapeConcat(COLON_ESCAPE, id[3..]);
        assert Escape(COLON_ESCAPE) == COLON_ESCAPE by {
          assert COLON_ESCAPE[1..] == "3A" && "3A"[1..] == "A" && "A"[1..] == "";
        }
        assert e[3..] == Escape(id[3..]);
      } else {
        UnescapeOfEscape(id[1..]);
        assert e[1..] == Escape(id[1..]);
        NoNewEscape(id);
      }
    }
  }

  /** Escaping creates no `%3A` at the front but from a colon or an existing one. */
  lemma NoNewEscape(id: string)
    requires id != "" && id[0] != ':' && !(StartsEscaped(id))
    ensures !(StartsEscaped(Escape(id)))
  {
    EscapeHead(id);
    EscapeHead(id[1..]);
    if |id| > 1 && id[1] == '3' {
      assert id[1..][1..] == id[2..];
      EscapeHead(id[2..]);
    }
  }

  lemma EscapeHead(s: string)
    ensures s == "" ==> Escape(s) == ""
    ensures s != "" && s[0] != ':' ==> Escape(s) == [s[0]] + Escape(s[1..])
    ensures s != "" && s[0] == ':' ==> |Escape(s)| >= 3 && Escape(s)[0] == '%'
  {
  }

  /** Two ids escape to the same text exactly when they agree after `%3A` is read as a colon. */
  lemma EscapeCollides(a: string, b: string)
    ensures Escape(a) == Escape(b) <==> Unescape(a) == Unescape(b)
  {
    EscapeOfUnescape(a);
    EscapeOfUnescape(b);
    UnescapeOfEscape(a);
    UnescapeOfEscape(b);
  }

  lemma {:induction false} EscapeColonFree(id: string)
    requires ':' !in id
    ensures Escape(id) == id
  {
    if id != "" {
      EscapeColonFree(id[1..]);
    }
  }

  lemma SameLastColon(a: string, x: string, b: string, y: string)
    requires a + ":" + x == b + ":" + y && ':' !in x && ':' !in y
    ensures a == b && x == y
  {
    var s := a + ":" + x;
    forall k | |a| < k < |s| ensures s[k] != ':' {
      assert s[k] == x[k - |a| - 1];
    }
    forall k | |b| < k < |s| ensures s[k] != ':' {
      assert s[k] == y[k - |b| - 1];
    }
    assert s[|a|] == ':' && s[|b|] == ':';
    assert a == s[..|a|] && b == s[..|b|];
    assert x == s[|a| + 1..] && y == s[|b| + 1..];
  }

  /** For other than the default login types two namespaces coincide exactly in this case. */
  lemma AccountNsCollides(t: string, a: string, u: string, b: string)
    requires !IsDefaultLoginType(t) && !IsDefaultLoginType(u)
    ensures AccountNs(t, a) == AccountNs(u, b) <==> t == u && Unescape(a) == Unescape(b)
  {
    EscapeCollides(a, b);
    if AccountNs(t, a) == AccountNs(u, b) {
      SameLastColon(t, Escape(a), u, Escape(b));
    }
  }

  /** The position of the last colon. */
  function LastColon(s: string): (i: nat)
    requires ':' in s
    ensures i < |s| && s[i] == ':' && ':' !in s[i + 1..]
  {
    TextOps.LastIndexOf(s, ':')
  }

  ghost predicate Namespaced(ns: string) {
    exists t, id :: IsNamespace(ns, t, id)
  }

  predicate IsNamespace(ns: string, loginType: string, loginId: string) {
    !IsDefaultLoginType(loginType) && AccountNs(loginType, loginId) == ns
  }

  lemma SplitAtLastColon(s: string)
    requires ':' in s
    ensures var i := LastColon(s); s == s[..i] + ":" + s[i + 1..] && ':' !in s[i + 1..]
  {
  }

  lemma NamespaceSplits(ns: string, loginType: string, loginId: string)
    requires IsNamespace(ns, loginType, loginId)
    ensures ':' in ns && ns[..LastColon(ns)] == loginType
  {
    assert ns[|loginType|] == ':';
    SplitAtLastColon(ns);
    var i := LastColon(ns);
    SameLastColon(loginType, Escape(loginId), ns[..i], ns[i + 1..]);
  }

  /** A default account's bare id meets the namespace of some other login type exactly in this case. */
  lemma DefaultIdMeetsNamespace(id: string)
    ensures Namespaced(id) <==> ':' in id && !IsDefaultLoginType(id[..LastColon(id)])
  {
    if Namespaced(id) {
      var t, x :| IsNamespace(id, t, x);
      NamespaceSplits(id, t, x);
    } else if ':' in id && !IsDefaultLoginType(id[..LastColon(id)]) {
      var i := LastColon(id);
      SplitAtLastColon(id);
      EscapeColonFree(id[i + 1..]);
      assert IsNamespace(id, id[..i], id[i + 1..]);
      assert false;
    }
  }
}
