/**
 The builders of sa-token-core/src/keys.rs:325-462 and 564-598 as they write into a `String` buffer.
 Those that precompute a capacity also return it: it is the byte length of the text, so one allocation
 with nothing spare. `Keys` says what the text is.
 */
module KeyBuilder {
  import opened Wrappers
  import opened Keys
  import Text
  import Utf8

  class Buffer {
    var text: string
    const capacity: nat

    /** `String::with_capacity` */
    constructor (capacity: nat)
      ensures text == "" && this.capacity == capacity
    {
      text := "";
      this.capacity := capacity;
    }

    method PushStr(s: string)
      modifies this
      ensures text == old(text) + s
    {
      text := text + s;
    }

    method Push(c: char)
      modifies this
      ensures text == old(text) + [c]
    {
      text := text + [c];
    }
  }

  method PushEscaped(out: Buffer, src: string)
    modifies out
    ensures out.text == old(out.text) + Escape(src)
  {
    assert src[0..] == src;
    for i := 0 to |src|
      invariant out.text + Escape(src[i..]) == old(out.text) + Escape(src)
    {
      ghost var before := out.text;
      assert src[i..][1..] == src[i + 1..];
      if src[i] == ':' {
        out.PushStr(COLON_ESCAPE);
      } else {
        out.Push(src[i]);
      }
      assert out.text == before + EscapeChar(src[i]);
      assert before + (EscapeChar(src[i]) + Escape(src[i + 1..])) == out.text + Escape(src[i + 1..]);
    }
  }

  method BuildAccountNs(loginType: string, loginId: string) returns (ns: string, capacity: nat)
    ensures ns == AccountNs(loginType, loginId)
    ensures capacity == Utf8.Len(ns)
  {
    if IsDefaultLoginType(loginType) {
      return loginId, Utf8.Len(loginId);
    }
    var needsEscape := ':' in loginId;
    var escapedExtra := if needsEscape then Text.Count(loginId, ':') * (Utf8.Len(COLON_ESCAPE) - 1) else 0;
    var out := new Buffer(Utf8.Len(loginType) + 1 + Utf8.Len(loginId) + escapedExtra);
    out.PushStr(loginType);
    assert out.text == loginType;
    out.Push(':');
    if needsEscape {
      PushEscaped(out, loginId);
    } else {
      out.PushStr(loginId);
      EscapeColonFree(loginId);
    }
    Text.CountZero(loginId, ':');
    AccountNsLen(loginType, loginId);
    ns, capacity := out.text, out.capacity;
  }

  lemma AccountNsLen(loginType: string, loginId: string)
    ensures Utf8.Len(loginType + ":" + Escape(loginId))
            == Utf8.Len(loginType) + 1 + Utf8.Len(loginId) + Text.Count(loginId, ':') * (Utf8.Len(COLON_ESCAPE) - 1)
  {
    AsciiLengths();
    EscapedLen(loginId);
    LenConcat3(loginType, ":", Escape(loginId));
  }

  method BuildGlobal(keys: SaKeys, category: string, id: string, loginType: Option<string>) returns (key: string, capacity: nat)
    ensures key == keys.Global(category, id, loginType)
    ensures capacity == Utf8.Len(key)
  {
    AsciiLengths();
    match keys.layout {
      case ThreeSegment =>
        var out := new Buffer(Utf8.Len(keys.root) + Utf8.Len(category) + 1 + Utf8.Len(id));
        out.PushStr(keys.root);
        out.PushStr(category);
        out.Push(':');
        out.PushStr(id);
        Utf8Concat(keys.root, category);
        LenConcat3(keys.root + category, ":", id);
        assert out.text == keys.root + category + ":" + id;
        key, capacity := out.text, out.capacity;
      case JavaFourSegment =>
        var lt := match loginType case Some(t) => t case None => LOGIN_TYPE_LOGIN;
        key, capacity := WriteFour(keys.root, lt, category, id);
    }
  }

  /** `write!(out, "{}:{}:{}:{}", ...)` into a buffer with room for the four parts and three colons. */
  method WriteFour(a: string, b: string, c: string, d: string) returns (key: string, capacity: nat)
    ensures key == a + ":" + b + ":" + c + ":" + d
    ensures capacity == Utf8.Len(key)
  {
    AsciiLengths();
    var out := new Buffer(Utf8.Len(a) + 1 + Utf8.Len(b) + 1 + Utf8.Len(c) + 1 + Utf8.Len(d));
    out.PushStr(a);
    assert out.text == a;
    out.Push(':');
    out.PushStr(b);
    out.Push(':');
    out.PushStr(c);
    out.Push(':');
    out.PushStr(d);
    LenConcat3(a, ":", b);
    LenConcat3(a + ":" + b, ":", c);
    LenConcat3(a + ":" + b + ":" + c, ":", d);
    key, capacity := out.text, out.capacity;
  }

  method BuildAccount(keys: SaKeys, category: string, loginType: string, loginId: string) returns (key: string, capacity: nat)
    ensures key == keys.Account(category, loginType, loginId)
    ensures capacity == Utf8.Len(key)
  {
    match keys.layout {
      case ThreeSegment =>
        if IsDefaultLoginType(loginType) {
          key, capacity := BuildGlobal(keys, category, loginId, None);
        } else {
          key, capacity := WriteNamespaced(keys.root, category, loginType, loginId);
        }
      case JavaFourSegment =>
        key, capacity := WriteFour(keys.root, SaKeys.OrLogin(loginType), category, loginId);
    }
  }

  method WriteNamespaced(root: string, category: string, loginType: string, loginId: string) returns (key: string, capacity: nat)
    ensures key == root + category + ":" + loginType + ":" + Escape(loginId)
    ensures capacity == Utf8.Len(key)
  {
    var escapedExtra := Text.Count(loginId, ':') * (Utf8.Len(COLON_ESCAPE) - 1);
    var out := new Buffer(Utf8.Len(root) + Utf8.Len(category) + 1 + Utf8.Len(loginType) + 1 + Utf8.Len(loginId) + escapedExtra);
    out.PushStr(root);
    assert out.text == root;
    out.PushStr(category);
    out.Push(':');
    out.PushStr(loginType);
    out.Push(':');
    PushEscaped(out, loginId);
    NamespacedLen(root, category, loginType, loginId);
    key, capacity := out.text, out.capacity;
  }

  lemma NamespacedLen(root: string, category: string, loginType: string, loginId: string)
    ensures Utf8.Len(root + category + ":" + loginType + ":" + Escape(loginId))
            == Utf8.Len(root) + Utf8.Len(category) + 1 + Utf8.Len(loginType) + 1 + Utf8.Len(loginId)
               + Text.Count(loginId, ':') * (Utf8.Len(COLON_ESCAPE) - 1)
  {
    AsciiLengths();
    EscapedLen(loginId);
    LenConcat3(root, category, ":");
    LenConcat3(root + category + ":", loginType, ":");
    Utf8Concat(root + category + ":" + loginType + ":", Escape(loginId));
  }

  method BuildFromNs(keys: SaKeys, category: string, ns: string) returns (key: Result<string, Error>)
    ensures key == keys.FromNs(category, ns)
  {
    if keys.layout.JavaFourSegment? {
      return Err(NamespacedIdUnsupportedByLayout);
    }
    var text, _ := BuildGlobal(keys, category, ns, None);
    key := Ok(text);
  }

  /** The suffix is pushed after the exactly filled part. */
  method BuildDisable(keys: SaKeys, loginType: string, loginId: string, service: string) returns (key: string)
    ensures key == keys.Disable(loginType, loginId, service)
  {
    match keys.layout {
      case ThreeSegment =>
        var account, _ := BuildAccount(keys, "disable", loginType, loginId);
        key := account + ":";
        key := key + service;
      case JavaFourSegment =>
        key := keys.root + ":" + SaKeys.OrLogin(loginType) + ":disable:" + service + ":" + loginId;
    }
  }

  method BuildDisableByNs(keys: SaKeys, ns: string, service: string) returns (key: Result<string, Error>)
    ensures key == keys.DisableByNs(ns, service)
  {
    if keys.layout.JavaFourSegment? {
      return Err(NamespacedIdUnsupportedByLayout);
    }
    var text, _ := BuildGlobal(keys, "disable", ns, None);
    text := text + ":";
    text := text + service;
    key := Ok(text);
  }

  // ---------- Lengths ----------

  lemma Utf8Concat(a: string, b: string)
    ensures Utf8.Len(a + b) == Utf8.Len(a) + Utf8.Len(b)
  {
    Utf8.BytesConcat(a, b);
  }

  lemma LenConcat3(a: string, b: string, c: string)
    ensures Utf8.Len(a + b + c) == Utf8.Len(a) + Utf8.Len(b) + Utf8.Len(c)
  {
    Utf8Concat(a + b, c);
    Utf8Concat(a, b);
  }

  lemma AsciiLengths()
    ensures Utf8.Len(":") == 1 && Utf8.Len(COLON_ESCAPE) == 3
  {
    assert Utf8.Bytes(":") == Utf8.CharBytes(':') + Utf8.Bytes("");
    assert COLON_ESCAPE == "%" + "3" + "A";
    assert Utf8.Bytes("%") == Utf8.CharBytes('%') + Utf8.Bytes("");
    assert Utf8.Bytes("3") == Utf8.CharBytes('3') + Utf8.Bytes("");
    assert Utf8.Bytes("A") == Utf8.CharBytes('A') + Utf8.Bytes("");
    LenConcat3("%", "3", "A");
  }

  /** Escaping adds two bytes a colon. */
  lemma {:induction false} EscapedLen(id: string)
    ensures Utf8.Len(Escape(id)) == Utf8.Len(id) + 2 * Text.Count(id, ':')
  {
    if id != "" {
      EscapedLen(id[1..]);
      AsciiLengths();
      Utf8Concat(EscapeChar(id[0]), Escape(id[1..]));
      assert id == [id[0]] + id[1..];
      Utf8Concat([id[0]], id[1..]);
    }
  }
}
