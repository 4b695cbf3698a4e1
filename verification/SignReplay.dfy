/** How often one signed request, or one signature, is accepted over a whole run (sa-token-core/src/sign.rs:104-126). */
module SignReplay {
  import opened Wrappers
  import opened Storage
  import opened KeyNames
  import opened Sign
  import Decimal
  import Text

  datatype Event =
    | Elapse(ms: nat)
    | Verify(params: Params, provided: string)

  function After(s: Signer, st: NonceStore, e: Event): NonceStore
    requires s.Valid()
  {
    match e
    case Elapse(ms) => st.Later(ms)
    case Verify(p, provided) => Verified(s, st, p, provided).0
  }

  /** The instants, in milliseconds, at which a verification that counts succeeds, in a run of any verifications. */
  function Times(s: Signer, st: NonceStore, events: seq<Event>, counts: Event -> bool): seq<int>
    requires s.Valid()
    decreases |events|
  {
    if events == [] then []
    else
      (if events[0].Verify? && counts(events[0]) && Verified(s, st, events[0].params, events[0].provided).1.Ok? then [st.now] else [])
      + Times(s, After(s, st, events[0]), events[1..], counts)
  }

  function Is(request: Event): Event -> bool {
    e => e == request
  }

  /** The instants at which `request` itself is accepted. */
  function AcceptTimes(s: Signer, st: NonceStore, events: seq<Event>, request: Event): seq<int>
    requires s.Valid()
  {
    Times(s, st, events, Is(request))
  }

  /** Everything that counts, and has a timestamp at all, carries this nonce and timestamp. */
  ghost predicate AllCarry(events: seq<Event>, counts: Event -> bool, nonce: string, ts: int) {
    forall i :: 0 <= i < |events| && events[i].Verify? && counts(events[i]) && Timestamp(events[i].params).Some? ==>
      Carries(events[i].params, nonce, ts)
  }

  predicate Carries(p: Params, nonce: string, ts: int) {
    Lookup(p, "nonce") == Some(nonce) && Timestamp(p) == Some(ts)
  }

  lemma AllCarryRest(events: seq<Event>, counts: Event -> bool, nonce: string, ts: int)
    requires events != [] && AllCarry(events, counts, nonce, ts)
    ensures AllCarry(events[1..], counts, nonce, ts)
    ensures events[0].Verify? && counts(events[0]) && Timestamp(events[0].params).Some? ==> Carries(events[0].params, nonce, ts)
  {
    assert forall i :: 0 <= i < |events[1..]| ==> events[1..][i] == events[i + 1];
  }

  /** Until `bound` the nonce is occupied. */
  predicate OccupiedUntil(st: NonceStore, nonce: string, bound: int) {
    bound <= st.now
    || (SignNonce(nonce) in st.scalars
        && (match st.scalars[SignNonce(nonce)].expireAt case Some(e) => bound <= e case None => true))
  }

  lemma AfterKeepsOccupied(s: Signer, st: NonceStore, e: Event, nonce: string, bound: int)
    requires s.Valid() && OccupiedUntil(st, nonce, bound)
    ensures OccupiedUntil(After(s, st, e), nonce, bound)
    ensures st.now <= After(s, st, e).now
  {
  }

  lemma {:induction false} AcceptsNotBefore(s: Signer, st: NonceStore, events: seq<Event>, counts: Event -> bool, nonce: string, ts: int, bound: int)
    requires s.Valid() && s.attached && AllCarry(events, counts, nonce, ts) && OccupiedUntil(st, nonce, bound)
    ensures forall t :: t in Times(s, st, events, counts) ==> bound <= t && st.now <= t
    decreases |events|
  {
    if events != [] {
      AllCarryRest(events, counts, nonce, ts);
      AfterKeepsOccupied(s, st, events[0], nonce, bound);
      AcceptsNotBefore(s, After(s, st, events[0]), events[1..], counts, nonce, ts, bound);
    }
  }

  ghost predicate Spaced(times: seq<int>, gap: int) {
    forall i :: 0 <= i < |times| - 1 ==> times[i] + gap <= times[i + 1]
  }

  /** Two accepts with one nonce are at least the window apart. */
  lemma {:induction false} AcceptsSpaced(s: Signer, st: NonceStore, events: seq<Event>, counts: Event -> bool, nonce: string, ts: int)
    requires s.Valid() && s.attached && AllCarry(events, counts, nonce, ts)
    ensures Spaced(Times(s, st, events, counts), 1000 * s.windowSecs)
    decreases |events|
  {
    if events != [] {
      var next := After(s, st, events[0]);
      AllCarryRest(events, counts, nonce, ts);
      AcceptsSpaced(s, next, events[1..], counts, nonce, ts);
      if events[0].Verify? && counts(events[0]) && Verified(s, st, events[0].params, events[0].provided).1.Ok? {
        var rest := Times(s, next, events[1..], counts);
        AcceptsNotBefore(s, next, events[1..], counts, nonce, ts, st.now + 1000 * s.windowSecs);
        assert rest != [] ==> rest[0] in rest;
        assert Times(s, st, events, counts) == [st.now] + rest;
      }
    }
  }

  /** Every accept lies in the window around the timestamp. */
  lemma {:induction false} AcceptsInWindow(s: Signer, st: NonceStore, events: seq<Event>, counts: Event -> bool, nonce: string, ts: int)
    requires s.Valid() && AllCarry(events, counts, nonce, ts)
    ensures forall t :: t in Times(s, st, events, counts) ==> WithinWindow(s, t / 1000, ts)
    decreases |events|
  {
    if events != [] {
      AllCarryRest(events, counts, nonce, ts);
      AcceptsInWindow(s, After(s, st, events[0]), events[1..], counts, nonce, ts);
    }
  }

  lemma {:induction false} SpacedSpan(times: seq<int>, w: nat, k: nat)
    requires Spaced(times, 1000 * w) && k < |times|
    ensures times[0] / 1000 + k * w <= times[k] / 1000
  {
    if k > 0 {
      SpacedSpan(times, w, k - 1);
      assert times[k - 1] + 1000 * w <= times[k];
      assert (times[k - 1] + 1000 * w) / 1000 == times[k - 1] / 1000 + w;
      assert k * w == (k - 1) * w + w;
    }
  }

  /** From the first accept on, as many fit as there are windows before the timestamp's window closes. */
  lemma AcceptsFit(s: Signer, st: NonceStore, events: seq<Event>, counts: Event -> bool, nonce: string, ts: int)
    requires s.Valid() && s.attached && AllCarry(events, counts, nonce, ts)
    ensures var times := Times(s, st, events, counts);
            times != [] ==> ts - s.windowSecs <= times[0] / 1000 && times[0] / 1000 + (|times| - 1) * s.windowSecs <= ts + s.windowSecs
  {
    var times := Times(s, st, events, counts);
    AcceptsSpaced(s, st, events, counts, nonce, ts);
    AcceptsInWindow(s, st, events, counts, nonce, ts);
    if times != [] {
      SpacedSpan(times, s.windowSecs, |times| - 1);
      assert times[0] in times && times[|times| - 1] in times;
    }
  }

  /** Any run accepts one request at most three times, and only once when its first accept comes after `ts`. */
  lemma ReplayBound(s: Signer, st: NonceStore, events: seq<Event>, request: Event, nonce: string, ts: int)
    requires s.Valid() && s.attached && request.Verify? && Carries(request.params, nonce, ts)
    ensures var times := AcceptTimes(s, st, events, request);
            && |times| <= 3
            && (|times| > 0 && times[0] / 1000 > ts ==> |times| == 1)
  {
    AcceptsFit(s, st, events, Is(request), nonce, ts);
    FewFit(|AcceptTimes(s, st, events, request)|, s.windowSecs);
  }

  /** `n` accepts span `n - 1` windows; no more than two fit into two windows. */
  lemma FewFit(n: nat, w: nat)
    requires w > 0
    ensures (n - 1) * w <= 2 * w <==> n <= 3
    ensures (n - 1) * w < w <==> n <= 1
  {
    if n > 3 {
      assert (n - 1) * w == 3 * w + (n - 4) * w && (n - 4) * w >= 0;
    } else if n == 3 {
      assert (n - 1) * w == 2 * w;
    } else if n == 2 {
      assert (n - 1) * w == w;
    } else if n == 1 {
      assert (n - 1) * w == 0;
    }
  }

  // ---------- Exactly how often ----------

  /** The request sent `n` times, one window apart. */
  function Repeats(s: Signer, request: Event, n: nat): seq<Event>
    requires s.Valid()
  {
    if n == 0 then [] else [request, Elapse(1000 * s.windowSecs)] + Repeats(s, request, n - 1)
  }

  /** The request with its correct signature. */
  function Signed(s: Signer, p: Params): Event {
    Verify(p, s.mac(s.secret, Canonical(p)))
  }

  /** The nonce is unused and the clock within the window. */
  predicate Acceptable(s: Signer, st: NonceStore, nonce: string, ts: int) {
    s.secret != "" && WithinWindow(s, st.now / 1000, ts) && st.Get(SignNonce(nonce)).None?
  }

  lemma SendStep(s: Signer, st: NonceStore, p: Params, nonce: string, ts: int, events: seq<Event>)
    requires s.Valid() && s.attached && Carries(p, nonce, ts) && Acceptable(s, st, nonce, ts)
    ensures var request := Signed(s, p);
            var wait := 1000 * s.windowSecs;
            AcceptTimes(s, st, [request, Elapse(wait)] + events, request) ==
              [st.now] + AcceptTimes(s, st.Put(SignNonce(nonce), "1", Some(wait)).Later(wait), events, request)
  {
    var request := Signed(s, p);
    var wait := Elapse(1000 * s.windowSecs);
    var all := [request, wait] + events;
    assert all[1..] == [wait] + events;
    assert ([wait] + events)[1..] == events;
    assert Times(s, After(s, st, request), [wait] + events, Is(request))
        == Times(s, After(s, st, request).Later(1000 * s.windowSecs), events, Is(request));
  }

  /** As many sends as fit in the window around `ts` are all accepted. */
  lemma {:induction false} RepeatsAccepted(s: Signer, st: NonceStore, p: Params, nonce: string, ts: int, n: nat)
    requires s.Valid() && s.attached && s.secret != "" && Carries(p, nonce, ts) && st.Get(SignNonce(nonce)).None?
    requires ts - s.windowSecs <= st.now / 1000 && st.now / 1000 + n * s.windowSecs <= ts + 2 * s.windowSecs
    ensures |AcceptTimes(s, st, Repeats(s, Signed(s, p), n), Signed(s, p))| == n
    decreases n
  {
    if n > 0 {
      var wait := 1000 * s.windowSecs;
      assert n * s.windowSecs == (n - 1) * s.windowSecs + s.windowSecs;
      assert (n - 1) * s.windowSecs >= 0;
      SendStep(s, st, p, nonce, ts, Repeats(s, Signed(s, p), n - 1));
      var next := st.Put(SignNonce(nonce), "1", Some(wait)).Later(wait);
      assert next.now / 1000 == st.now / 1000 + s.windowSecs;
      RepeatsAccepted(s, next, p, nonce, ts, n - 1);
    }
  }

  /** Some run that starts with the request accepts it at least `n` times. */
  ghost predicate Attains(s: Signer, st: NonceStore, request: Event, n: nat)
    requires s.Valid()
  {
    exists events :: |AcceptTimes(s, st, [request] + events, request)| >= n
  }

  lemma AttainsWhenItFits(s: Signer, st: NonceStore, p: Params, nonce: string, ts: int, n: nat)
    requires s.Valid() && s.attached && Carries(p, nonce, ts) && Acceptable(s, st, nonce, ts) && n > 0
    requires st.now / 1000 + (n - 1) * s.windowSecs <= ts + s.windowSecs
    ensures Attains(s, st, Signed(s, p), n)
  {
    var request := Signed(s, p);
    assert n * s.windowSecs == (n - 1) * s.windowSecs + s.windowSecs;
    RepeatsAccepted(s, st, p, nonce, ts, n);
    var events := [Elapse(1000 * s.windowSecs)] + Repeats(s, request, n - 1);
    assert [request] + events == Repeats(s, request, n);
    assert |AcceptTimes(s, st, [request] + events, request)| >= n;
  }

  lemma FirstIsNow(s: Signer, st: NonceStore, p: Params, nonce: string, ts: int, events: seq<Event>)
    requires s.Valid() && s.attached && Carries(p, nonce, ts) && Acceptable(s, st, nonce, ts)
    ensures var times := AcceptTimes(s, st, [Signed(s, p)] + events, Signed(s, p)); times != [] && times[0] == st.now
  {
  }

  lemma AttainedFits(s: Signer, st: NonceStore, p: Params, nonce: string, ts: int, n: nat, events: seq<Event>)
    requires s.Valid() && s.attached && Carries(p, nonce, ts) && Acceptable(s, st, nonce, ts) && n > 0
    requires |AcceptTimes(s, st, [Signed(s, p)] + events, Signed(s, p))| >= n
    ensures st.now / 1000 + (n - 1) * s.windowSecs <= ts + s.windowSecs
  {
    var all := [Signed(s, p)] + events;
    FirstIsNow(s, st, p, nonce, ts, events);
    AcceptsFit(s, st, all, Is(Signed(s, p)), nonce, ts);
    FewerSpanLess(n - 1, |AcceptTimes(s, st, all, Signed(s, p))| - 1, s.windowSecs);
  }

  lemma FewerSpanLess(m: nat, n: nat, w: nat)
    requires m <= n
    ensures m * w <= n * w
  {
    assert n * w == m * w + (n - m) * w;
    assert (n - m) * w >= 0;
  }

  /** A request accepted now can be accepted `n` times in all exactly when `n - 1` windows end by `ts` plus the window. */
  lemma AttainsExactly(s: Signer, st: NonceStore, p: Params, nonce: string, ts: int, n: nat)
    requires s.Valid() && s.attached && Carries(p, nonce, ts) && Acceptable(s, st, nonce, ts) && n > 0
    ensures Attains(s, st, Signed(s, p), n) <==> st.now / 1000 + (n - 1) * s.windowSecs <= ts + s.windowSecs
  {
    if st.now / 1000 + (n - 1) * s.windowSecs <= ts + s.windowSecs {
      AttainsWhenItFits(s, st, p, nonce, ts, n);
    } else if Attains(s, st, Signed(s, p), n) {
      var events :| |AcceptTimes(s, st, [Signed(s, p)] + events, Signed(s, p))| >= n;
      AttainedFits(s, st, p, nonce, ts, n, events);
    }
  }

  /** A request accepted now is accepted once only, in every run, exactly when the clock has passed its timestamp. */
  lemma OnceExactly(s: Signer, st: NonceStore, p: Params, nonce: string, ts: int)
    requires s.Valid() && s.attached && Carries(p, nonce, ts) && Acceptable(s, st, nonce, ts)
    ensures (forall events :: |AcceptTimes(s, st, [Signed(s, p)] + events, Signed(s, p))| <= 1) <==> st.now / 1000 > ts
  {
    AttainsExactly(s, st, p, nonce, ts, 2);
    if !Attains(s, st, Signed(s, p), 2) {
      forall events ensures |AcceptTimes(s, st, [Signed(s, p)] + events, Signed(s, p))| <= 1 {
      }
    } else {
      var events :| |AcceptTimes(s, st, [Signed(s, p)] + events, Signed(s, p))| >= 2;
    }
  }

  lemma ThreeAcceptsHappen(s: Signer, p: Params, nonce: string, ts: int)
    requires s.Valid() && s.attached && s.secret != "" && Carries(p, nonce, ts)
    ensures |AcceptTimes(s, State(map[], map[], 1000 * (ts - s.windowSecs)), Repeats(s, Signed(s, p), 3), Signed(s, p))| == 3
  {
    RepeatsAccepted(s, State(map[], map[], 1000 * (ts - s.windowSecs)), p, nonce, ts, 3);
  }

  // ---------- A nonce used up by somebody else ----------

  /** This verification takes the nonce, whatever signature it carries: the window and the nonce come first. */
  predicate Takes(s: Signer, st: NonceStore, q: Params, nonce: string) {
    && Timestamp(q).Some? && WithinWindow(s, st.now / 1000, Timestamp(q).value)
    && Lookup(q, "nonce") == Some(nonce)
  }

  /**
   A correctly signed request with an unused nonce, sent `ms` after another verification of any map
   with any signature, is accepted exactly while in its window and unless that verification took its
   nonce less than a window ago.
   */
  lemma TakenNonceExactly(s: Signer, st: NonceStore, p: Params, nonce: string, ts: int, q: Params, provided: string, ms: nat)
    requires s.Valid() && s.attached && s.secret != "" && Carries(p, nonce, ts) && st.Get(SignNonce(nonce)).None?
    ensures var later := Verified(s, st, q, provided).0.Later(ms);
            Verified(s, later, p, s.mac(s.secret, Canonical(p))).1.Ok? <==>
              WithinWindow(s, later.now / 1000, ts) && !(Takes(s, st, q, nonce) && ms < 1000 * s.windowSecs)
  {
  }

  // ---------- One signature, read as several maps ----------

  /** Every verification of a map with this canonical text. */
  function Reads(text: string): Event -> bool {
    (e: Event) => e.Verify? && Canonical(e.params) == text
  }

  /** Every map in the run that has this canonical text is free of separators. */
  ghost predicate CleanReadings(events: seq<Event>, text: string) {
    forall i :: 0 <= i < |events| && events[i].Verify? && Canonical(events[i].params) == text ==> Clean(WithoutSign(events[i].params))
  }

  lemma {:induction false} LookupWithoutSign(p: Params, key: string)
    requires key != "sign"
    ensures Lookup(WithoutSign(p), key) == Lookup(p, key)
  {
    if p != [] {
      LookupWithoutSign(p[1..], key);
      var rest := WithoutSign(p[1..]);
      assert WithoutSign(p) == if p[0].key == "sign" then rest else [p[0]] + rest;
      assert ([p[0]] + rest)[1..] == rest;
    }
  }

  /** When only maps free of separators are verified, the bound is one per signature, not per map. */
  lemma SignatureBound(s: Signer, st: NonceStore, events: seq<Event>, p: Params, nonce: string, ts: int)
    requires s.Valid() && s.attached && Carries(p, nonce, ts) && Clean(WithoutSign(p)) && CleanReadings(events, Canonical(p))
    ensures var times := Times(s, st, events, Reads(Canonical(p)));
            && |times| <= 3
            && (|times| > 0 && times[0] / 1000 > ts ==> |times| == 1)
  {
    var counts := Reads(Canonical(p));
    forall i | 0 <= i < |events| && events[i].Verify? && counts(events[i]) ensures Carries(events[i].params, nonce, ts) {
      var q := events[i].params;
      CanonicalInjective(p, q);
      LookupWithoutSign(p, "nonce");
      LookupWithoutSign(q, "nonce");
      LookupWithoutSign(p, "timestamp");
      LookupWithoutSign(q, "timestamp");
    }
    AcceptsFit(s, st, events, counts, nonce, ts);
    FewFit(|Times(s, st, events, counts)|, s.windowSecs);
  }

  function Copies(request: Event, n: nat): seq<Event> {
    if n == 0 then [] else [request] + Copies(request, n - 1)
  }

  lemma {:induction false} CopiesAccepted(s: Signer, st: NonceStore, p: Params, counts: Event -> bool, n: nat)
    requires s.Valid() && s.secret != "" && Lookup(p, "nonce").None? && counts(Signed(s, p))
    requires Timestamp(p).Some? && WithinWindow(s, st.now / 1000, Timestamp(p).value)
    ensures |Times(s, st, Copies(Signed(s, p), n), counts)| == n
  {
    if n > 0 {
      assert Copies(Signed(s, p), n)[1..] == Copies(Signed(s, p), n - 1);
      CopiesAccepted(s, st, p, counts, n - 1);
    }
  }

  ghost predicate Reaches(s: Signer, st: NonceStore, request: Event, n: nat)
    requires s.Valid()
  {
    exists events :: |AcceptTimes(s, st, events, request)| >= n
  }

  /** Whatever the number, some run accepts the request that often. */
  ghost predicate Unlimited(s: Signer, st: NonceStore, request: Event)
    requires s.Valid()
  {
    forall n: nat :: Reaches(s, st, request, n)
  }

  /** A correctly signed map inside its window is accepted without limit exactly when it holds no nonce. */
  lemma UnlimitedExactly(s: Signer, st: NonceStore, p: Params, ts: int)
    requires s.Valid() && s.attached && s.secret != "" && Timestamp(p) == Some(ts) && WithinWindow(s, st.now / 1000, ts)
    ensures Unlimited(s, st, Signed(s, p)) <==> Lookup(p, "nonce").None?
  {
    var request := Signed(s, p);
    if Lookup(p, "nonce").None? {
      forall n: nat ensures Reaches(s, st, request, n) {
        CopiesAccepted(s, st, p, Is(request), n);
        assert |AcceptTimes(s, st, Copies(request, n), request)| >= n;
      }
    } else {
      forall events ensures |AcceptTimes(s, st, events, request)| <= 3 {
        ReplayBound(s, st, events, request, Lookup(p, "nonce").value, ts);
      }
      assert !Reaches(s, st, request, 4);
    }
  }

  lemma {:induction false} NoSignToDrop(p: Params)
    requires forall e :: e in p ==> e.key != "sign"
    ensures WithoutSign(p) == p
  {
    if p != [] {
      assert p[0] in p;
      NoSignToDrop(p[1..]);
    }
  }
}
