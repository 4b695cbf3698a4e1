/** Request signing (sa-token-core/src/sign.rs): the canonical text and the signed round trip. */
module Sign {
  import opened Wrappers
  import opened Storage
  import opened Text
  import opened KeyNames
  import Decimal
  import ConstantTime

  datatype Param = Param(key: string, value: string)

  /** A `BTreeMap<String, String>` as the sequence of its entries in key order. */
  type Params = seq<Param>

  ghost predicate Sorted(p: Params) {
    forall i, j :: 0 <= i < j < |p| ==> Less(p[i].key, p[j].key)
  }

  function Insert(p: Params, key: string, value: string): Params {
    if p == [] then [Param(key, value)]
    else if key == p[0].key then [Param(key, value)] + p[1..]
    else if Less(key, p[0].key) then [Param(key, value)] + p
    else [p[0]] + Insert(p[1..], key, value)
  }

  function Lookup(p: Params, key: string): Option<string> {
    if p == [] then None
    else if p[0].key == key then Some(p[0].value)
    else Lookup(p[1..], key)
  }

  lemma {:induction false} LookupInsert(p: Params, key: string, value: string, x: string)
    ensures Lookup(Insert(p, key, value), x) == if x == key then Some(value) else Lookup(p, x)
  {
    if p != [] && key != p[0].key && !Less(key, p[0].key) {
      LookupInsert(p[1..], key, value, x);
    }
  }

  lemma {:induction false} InsertSorted(p: Params, key: string, value: string)
    requires Sorted(p)
    ensures Sorted(Insert(p, key, value))
    ensures forall e :: e in Insert(p, key, value) ==> e == Param(key, value) || e in p
  {
    if p != [] {
      if Less(key, p[0].key) {
        forall j | 0 <= j < |p| ensures Less(key, p[j].key) {
          if j > 0 {
            LessTrans(key, p[0].key, p[j].key);
          }
        }
      } else if key != p[0].key {
        LessTotal(key, p[0].key);
        InsertSorted(p[1..], key, value);
        var rest := Insert(p[1..], key, value);
        forall j | 0 <= j < |rest| ensures Less(p[0].key, rest[j].key) {
          assert rest[j] in rest;
          if rest[j] in p[1..] {
            var i :| 0 <= i < |p[1..]| && p[1..][i] == rest[j];
            assert p[i + 1] == rest[j];
          }
        }
      }
    }
  }

  // ---------- The canonical text ----------

  function WithoutSign(p: Params): Params {
    if p == [] then []
    else (if p[0].key != "sign" then [p[0]] else []) + WithoutSign(p[1..])
  }

  function Part(e: Param): string {
    e.key + ['='] + e.value
  }

  function Parts(p: Params): (parts: seq<string>)
    ensures |parts| == |p| && forall i :: 0 <= i < |p| ==> parts[i] == Part(p[i])
  {
    seq(|p|, i requires 0 <= i < |p| => Part(p[i]))
  }

  function Canonical(p: Params): string {
    Join(Parts(WithoutSign(p)), '&')
  }

  /** Reads a canonical text back. */
  function ParseCanonical(text: string): Params {
    if text == "" then []
    else
      var parts := Split(text, '&');
      seq(|parts|, i requires 0 <= i < |parts| => ParsePart(parts[i]))
  }

  function ParsePart(part: string): (e: Param)
    ensures '=' !in e.key
  {
    var i := IndexOf(part, '=');
    Param(part[..i], if i < |part| then part[i + 1..] else "")
  }

  predicate CleanParam(e: Param) {
    '=' !in e.key && '&' !in e.key && '&' !in e.value
  }

  predicate Clean(p: Params) {
    forall e :: e in p ==> CleanParam(e)
  }

  lemma ParsePartOfPart(e: Param)
    ensures ParsePart(Part(e)) == e <==> '=' !in e.key
  {
    if '=' !in e.key {
      IndexOfSeparator(e.key, e.value, '=');
      assert Part(e)[..|e.key|] == e.key && Part(e)[|e.key| + 1..] == e.value;
    }
  }

  lemma CleanPartsParse(q: Params)
    requires q != [] && Clean(q)
    ensures ParseCanonical(Join(Parts(q), '&')) == q
  {
    var parts := Parts(q);
    JoinNonEmpty(q);
    forall s | s in parts ensures '&' !in s {
      var i :| 0 <= i < |parts| && parts[i] == s;
      assert CleanParam(q[i]);
    }
    SplitJoin(parts, '&');
    forall i | 0 <= i < |q| ensures ParsePart(parts[i]) == q[i] {
      assert CleanParam(q[i]);
      ParsePartOfPart(q[i]);
    }
  }

  lemma ParsedPartsClean(q: Params)
    requires q != [] && ParseCanonical(Join(Parts(q), '&')) == q
    ensures Clean(q)
  {
    var parts := Parts(q);
    JoinNonEmpty(q);
    SplitLength(Join(parts, '&'), '&');
    JoinCount(parts, '&');
    SplitJoin(parts, '&');
    forall e | e in q ensures CleanParam(e) {
      var i :| 0 <= i < |q| && q[i] == e;
      ParsePartOfPart(e);
      assert Part(e) in parts;
      assert e.key == Part(e)[..|e.key|] && e.value == Part(e)[|e.key| + 1..];
    }
  }

  /** The parser recovers a map minus `sign` exactly when its keys and values are free of separators. */
  lemma CanonicalInvertible(p: Params)
    ensures ParseCanonical(Canonical(p)) == WithoutSign(p) <==> Clean(WithoutSign(p))
  {
    var q := WithoutSign(p);
    if q != [] {
      if Clean(q) {
        CleanPartsParse(q);
      } else if ParseCanonical(Canonical(p)) == q {
        ParsedPartsClean(q);
      }
    }
  }

  lemma JoinNonEmpty(q: Params)
    requires q != []
    ensures Join(Parts(q), '&') != ""
  {
    assert '=' in Parts(q)[0];
  }

  /** So two such maps sign the same text only if they agree outside `sign`. */
  lemma CanonicalInjective(p: Params, q: Params)
    requires Clean(WithoutSign(p)) && Clean(WithoutSign(q))
    ensures Canonical(p) == Canonical(q) <==> WithoutSign(p) == WithoutSign(q)
  {
    CanonicalInvertible(p);
    CanonicalInvertible(q);
  }

  /** Without that, different sorted maps share a text. */
  lemma UncleanValuesCollide()
    ensures var p, q := [Param("a", "1&b=2")], [Param("a", "1"), Param("b", "2")];
            Sorted(p) && Sorted(q) && WithoutSign(p) != WithoutSign(q) && Canonical(p) == Canonical(q)
  {
    var p, q := [Param("a", "1&b=2")], [Param("a", "1"), Param("b", "2")];
    assert WithoutSign(p) == p && WithoutSign(q) == q by {
      assert q[1..] == [Param("b", "2")];
    }
    assert Parts(q)[1..] == [Part(q[1])];
    assert Canonical(q) == Part(q[0]) + ['&'] + Part(q[1]) == "a=1&b=2";
    assert Canonical(p) == "a=1&b=2";
    assert Less("a", "b");
  }

  lemma {:induction false} InsertSign(p: Params, value: string)
    ensures WithoutSign(Insert(p, "sign", value)) == WithoutSign(p)
  {
    if p != [] {
      if p[0].key != "sign" && !Less("sign", p[0].key) {
        InsertSign(p[1..], value);
      }
    }
  }

  // ---------- Signing and verifying ----------

  datatype Error = ConfigError | SignTimestampExpired | NonceAlreadyUsed | SignInvalid

  /** The configuration of a signer; `mac(secret, text)` is the hex HMAC-SHA256 (RFC 2104, section 2). */
  datatype Signer = Signer(secret: string, windowSecs: int, attached: bool, mac: (string, string) -> string)
  {
    predicate Valid() {
      windowSecs > 0
    }
  }

  function NewSigner(secret: string, windowSecs: int, mac: (string, string) -> string): (s: Signer)
    ensures s.Valid()
  {
    Signer(secret, if windowSecs > 0 then windowSecs else 300, false, mac)
  }

  type NonceStore = State<Name, string>

  function SignParams(s: Signer, p: Params): Result<string, Error> {
    if s.secret == "" then Err(ConfigError) else Ok(s.mac(s.secret, Canonical(p)))
  }

  function CreateSigned(s: Signer, nowSecs: int, nonce: string, p: Params): Result<Params, Error> {
    var stamped := Insert(Insert(p, "timestamp", Decimal.ToText(nowSecs)), "nonce", nonce);
    match SignParams(s, stamped)
    case Err(e) => Err(e)
    case Ok(sign) => Ok(Insert(stamped, "sign", sign))
  }

  function Timestamp(p: Params): Option<int> {
    match Lookup(p, "timestamp")
    case None => None
    case Some(text) => Decimal.Parse(text)
  }

  predicate WithinWindow(s: Signer, nowSecs: int, ts: int) {
    -s.windowSecs <= nowSecs - ts <= s.windowSecs
  }

  /** What verification answers and leaves behind; the store also tells the time. */
  function Verified(s: Signer, st: NonceStore, p: Params, provided: string): (NonceStore, Result<(), Error>)
    requires s.Valid()
  {
    if s.secret == "" then (st, Err(ConfigError))
    else if Timestamp(p).None? || !WithinWindow(s, st.now / 1000, Timestamp(p).value) then (st, Err(SignTimestampExpired))
    else
      var answer := if s.mac(s.secret, Canonical(p)) == provided then Ok(()) else Err(SignInvalid);
      match (s.attached, Lookup(p, "nonce"))
      case (true, Some(nonce)) =>
        if st.Get(SignNonce(nonce)).Some? then (st, Err(NonceAlreadyUsed))
        else (st.Put(SignNonce(nonce), "1", Some(1000 * s.windowSecs)), answer)
      case _ => (st, answer)
  }

  class RequestSign {
    const signer: Signer
    const store: Store<Name, string>

    /** `attached` is whether a Dao was attached. */
    constructor (secret: string, windowSecs: int, attached: bool, mac: (string, string) -> string, store: Store<Name, string>)
      ensures signer == NewSigner(secret, windowSecs, mac).(attached := attached) && signer.Valid()
      ensures this.store == store
    {
      this.signer := NewSigner(secret, windowSecs, mac).(attached := attached);
      this.store := store;
    }

    method CreateSignedMap(params: Params, nonce: string) returns (r: Result<Params, Error>)
      ensures r == CreateSigned(signer, store.now / 1000, nonce, params)
    {
      var p := Insert(params, "timestamp", Decimal.ToText(store.now / 1000));
      p := Insert(p, "nonce", nonce);
      var sign := SignParams(signer, p);
      match sign {
        case Err(e) => return Err(e);
        case Ok(text) =>
          p := Insert(p, "sign", text);
          return Ok(p);
      }
    }

    method VerifyParams(params: Params, provided: string) returns (r: Result<(), Error>)
      requires signer.Valid()
      modifies store
      ensures (store.View(), r) == Verified(signer, old(store.View()), params, provided)
    {
      if signer.secret == "" {
        return Err(ConfigError);
      }
      var ts := Timestamp(params);
      if ts.None? {
        return Err(SignTimestampExpired);
      }
      var age := store.now / 1000 - ts.value;
      if (if age < 0 then -age else age) > signer.windowSecs {
        return Err(SignTimestampExpired);
      }
      var nonce := Lookup(params, "nonce");
      if nonce.Some? && signer.attached {
        var inserted := store.SetIfAbsent(SignNonce(nonce.value), "1", Some(1000 * signer.windowSecs));
        if !inserted {
          return Err(NonceAlreadyUsed);
        }
      }
      var same := ConstantTime.SameText(signer.mac(signer.secret, Canonical(params)), provided);
      r := if same then Ok(()) else Err(SignInvalid);
    }
  }

  /**
   Whatever the map held before, the signed map is accepted exactly while the clock is within the
   window and, with a Dao attached, its nonce is unused.
   */
  lemma SignRoundTrip(s: Signer, p: Params, nowSecs: int, nonce: string, later: NonceStore)
    requires s.Valid() && s.secret != "" && Decimal.InRange(nowSecs)
    ensures var signed := CreateSigned(s, nowSecs, nonce, p);
            && signed.Ok?
            && Lookup(signed.value, "sign").Some?
            && (Verified(s, later, signed.value, Lookup(signed.value, "sign").value).1.Ok? <==>
                  WithinWindow(s, later.now / 1000, nowSecs) && (s.attached ==> later.Get(SignNonce(nonce)).None?))
  {
    var text := Decimal.ToText(nowSecs);
    var p1 := Insert(p, "timestamp", text);
    var p2 := Insert(p1, "nonce", nonce);
    var sign := s.mac(s.secret, Canonical(p2));
    var p3 := Insert(p2, "sign", sign);
    InsertSign(p2, sign);
    LookupInsert(p, "timestamp", text, "timestamp");
    LookupInsert(p1, "nonce", nonce, "timestamp");
    LookupInsert(p1, "nonce", nonce, "nonce");
    LookupInsert(p2, "sign", sign, "timestamp");
    LookupInsert(p2, "sign", sign, "nonce");
    LookupInsert(p2, "sign", sign, "sign");
    Decimal.ParseOfText(nowSecs);
  }

  /**
   A verification succeeds exactly when there is a secret, the timestamp parses and is within the window,
   the nonce (if there is one and a Dao) is unused, and the signature is the mac of the canonical text.
   Each failing guard has its own error, the first in this order.
   */
  lemma VerifiedExactly(s: Signer, st: NonceStore, p: Params, provided: string)
    requires s.Valid()
    ensures var r := Verified(s, st, p, provided).1;
            var timely := Timestamp(p).Some? && -s.windowSecs <= st.now / 1000 - Timestamp(p).value <= s.windowSecs;
            var unused := s.attached && Lookup(p, "nonce").Some? ==> st.Get(SignNonce(Lookup(p, "nonce").value)).None?;
            var genuine := provided == s.mac(s.secret, Canonical(p));
            && (r.Ok? <==> s.secret != "" && timely && unused && genuine)
            && (r == Err(ConfigError) <==> s.secret == "")
            && (r == Err(SignTimestampExpired) <==> s.secret != "" && !timely)
            && (r == Err(NonceAlreadyUsed) <==> s.secret != "" && timely && !unused)
            && (r == Err(SignInvalid) <==> s.secret != "" && timely && unused && !genuine)
  {
  }

  /** What it leaves behind: a nonce that passed the guards is taken for one window, genuine signature or not. */
  lemma VerifiedTakes(s: Signer, st: NonceStore, p: Params, provided: string, key: Name, ms: nat)
    requires s.Valid()
    ensures var (after, r) := Verified(s, st, p, provided);
            var takes := (r.Ok? || r == Err(SignInvalid)) && s.attached && Lookup(p, "nonce").Some?;
            && (!takes ==> after == st)
            && (takes && key == SignNonce(Lookup(p, "nonce").value) ==>
                  (after.Later(ms).Get(key).Some? <==> ms < 1000 * s.windowSecs))
            && (takes && key != SignNonce(Lookup(p, "nonce").value) ==> after.Later(ms).Get(key) == st.Later(ms).Get(key))
  {
  }

  /** The signed map keeps every other parameter, and carries the time, the nonce and the mac of its own text. */
  lemma SignedKeeps(s: Signer, p: Params, nowSecs: int, nonce: string, x: string)
    ensures s.secret == "" ==> CreateSigned(s, nowSecs, nonce, p) == Err(ConfigError)
    ensures s.secret != "" ==>
              var signed := CreateSigned(s, nowSecs, nonce, p);
              && signed.Ok?
              && Lookup(signed.value, x) ==
                   (if x == "timestamp" then Some(Decimal.ToText(nowSecs))
                    else if x == "nonce" then Some(nonce)
                    else if x == "sign" then Some(s.mac(s.secret, Canonical(signed.value)))
                    else Lookup(p, x))
  {
    var p1 := Insert(p, "timestamp", Decimal.ToText(nowSecs));
    var p2 := Insert(p1, "nonce", nonce);
    var sign := s.mac(s.secret, Canonical(p2));
    InsertSign(p2, sign);
    LookupInsert(p, "timestamp", Decimal.ToText(nowSecs), x);
    LookupInsert(p1, "nonce", nonce, x);
    LookupInsert(p2, "sign", sign, x);
    assert |"nonce"| == 5 && |"timestamp"| == 9 && |"sign"| == 4;
  }

  lemma SignedSorted(s: Signer, p: Params, nowSecs: int, nonce: string)
    requires Sorted(p) && s.secret != ""
    ensures CreateSigned(s, nowSecs, nonce, p).Ok? && Sorted(CreateSigned(s, nowSecs, nonce, p).value)
  {
    var p1 := Insert(p, "timestamp", Decimal.ToText(nowSecs));
    InsertSorted(p, "timestamp", Decimal.ToText(nowSecs));
    InsertSorted(p1, "nonce", nonce);
    InsertSorted(Insert(p1, "nonce", nonce), "sign", s.mac(s.secret, Canonical(Insert(p1, "nonce", nonce))));
  }

  /** A signer without a positive window gets five minutes. */
  lemma NewSignerWindow(secret: string, windowSecs: int, mac: (string, string) -> string)
    ensures var s := NewSigner(secret, windowSecs, mac);
            && s.secret == secret && s.mac == mac && !s.attached
            && (windowSecs > 0 ==> s.windowSecs == windowSecs) && (windowSecs <= 0 ==> s.windowSecs == 300)
  {
  }
}
