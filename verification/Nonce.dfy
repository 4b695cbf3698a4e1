/** The login nonce manager (sa-token-core/src/nonce.rs). */
module Nonce {
  import opened Wrappers
  import opened Storage
  import KeyNames
  import Decimal
  import Text

  /** `createdAt` is `None` when the stored RFC 3339 text does not parse. */
  datatype NonceRecord = NonceRecord(loginId: string, createdAt: Option<int>)

  datatype Error = InvalidToken | NonceAlreadyUsed | InvalidNonceFormat | InvalidNonceTimestamp | StorageError

  type Key = KeyNames.Name
  type Nonces = State<Key, NonceRecord>

  /** The characters `str::trim` removes (Unicode White_Space). */
  predicate IsWhitespace(c: char) {
    var x := c as int;
    0x09 <= x <= 0x0D || x == 0x20 || x == 0x85 || x == 0xA0 || x == 0x1680 || 0x2000 <= x <= 0x200A
    || x == 0x2028 || x == 0x2029 || x == 0x202F || x == 0x205F || x == 0x3000
  }

  predicate IsBlank(s: string) {
    forall i :: 0 <= i < |s| ==> IsWhitespace(s[i])
  }

  function Consumed(st: Nonces, timeout: int, nonce: string, loginId: string): (Nonces, Result<(), Error>) {
    if IsBlank(nonce) then (st, Err(InvalidToken))
    else if st.Get(KeyNames.Nonce(nonce)).Some? then (st, Err(NonceAlreadyUsed))
    else (st.Put(KeyNames.Nonce(nonce), NonceRecord(loginId, Some(st.now)), Ttl(timeout)), Ok(()))
  }

  function Stored(st: Nonces, timeout: int, nonce: string, loginId: string): Nonces {
    st.Put(KeyNames.Nonce(nonce), NonceRecord(loginId, Some(st.now)), Ttl(timeout))
  }

  predicate Stale(st: Nonces, key: Key, cutoff: int) {
    match st.Get(key)
    case Some(record) => record.createdAt.Some? && record.createdAt.value < cutoff
    case None => false
  }

  /** One key of a cleanup: its record is read and, when older than the cutoff, deleted. */
  function SweptKey(st: Nonces, key: Key, cutoff: int): Nonces {
    if Stale(st, key, cutoff) then st.Without(key) else st
  }

  function Swept(st: Nonces, keys: seq<Key>, cutoff: int): Nonces
    decreases |keys|
  {
    if keys == [] then st else Swept(SweptKey(st, keys[0], cutoff), keys[1..], cutoff)
  }

  function SweptCount(st: Nonces, keys: seq<Key>, cutoff: int): nat
    decreases |keys|
  {
    if keys == [] then 0
    else (if Stale(st, keys[0], cutoff) then 1 else 0) + SweptCount(SweptKey(st, keys[0], cutoff), keys[1..], cutoff)
  }

  lemma {:induction false} SweptConcat(st: Nonces, a: seq<Key>, b: seq<Key>, cutoff: int)
    ensures Swept(st, a + b, cutoff) == Swept(Swept(st, a, cutoff), b, cutoff)
    ensures SweptCount(st, a + b, cutoff) == SweptCount(st, a, cutoff) + SweptCount(Swept(st, a, cutoff), b, cutoff)
    decreases |a|
  {
    if a == [] {
      assert a + b == b;
    } else {
      SweptConcat(SweptKey(st, a[0], cutoff), a[1..], b, cutoff);
      assert (a + b)[1..] == a[1..] + b;
    }
  }

  /** What successive `scan` calls return. */
  datatype ScanReply = Page(keys: seq<Key>, last: bool) | Unsupported | Failed

  /** The keys a cleanup looks at before it stops, and whether it stops on an error. */
  function Scanned(replies: seq<ScanReply>): (seq<Key>, bool) {
    if replies == [] || replies[0].Unsupported? then ([], false)
    else if replies[0].Failed? then ([], true)
    else if replies[0].last then (replies[0].keys, false)
    else (replies[0].keys + Scanned(replies[1..]).0, Scanned(replies[1..]).1)
  }

  /** `done` is what the pages before `page` held. */
  predicate ScannedSoFar(replies: seq<ScanReply>, page: nat, done: seq<Key>)
    requires page <= |replies|
  {
    Scanned(replies).0 == done + Scanned(replies[page..]).0 && Scanned(replies).1 == Scanned(replies[page..]).1
  }

  lemma ScannedStep(replies: seq<ScanReply>, page: nat, done: seq<Key>)
    requires page < |replies| && ScannedSoFar(replies, page, done)
    ensures var reply := replies[page];
            && (reply.Unsupported? ==> Scanned(replies) == (done, false))
            && (reply.Failed? ==> Scanned(replies) == (done, true))
            && (reply.Page? && reply.last ==> Scanned(replies) == (done + reply.keys, false))
            && (reply.Page? && !reply.last ==> ScannedSoFar(replies, page + 1, done + reply.keys))
            && (reply.Page? && !reply.last && page + 1 == |replies| ==> Scanned(replies) == (done + reply.keys, false))
  {
    var rest := replies[page..];
    assert rest[1..] == replies[page + 1..];
    assert done + [] == done;
    if rest[0].Page? && !rest[0].last {
      assert done + (rest[0].keys + Scanned(rest[1..]).0) == done + rest[0].keys + Scanned(rest[1..]).0;
      assert done + rest[0].keys + [] == done + rest[0].keys;
    }
  }

  class NonceManager {
    const store: Store<Key, NonceRecord>
    const timeout: int

    constructor (store: Store<Key, NonceRecord>, timeout: int)
      ensures this.store == store && this.timeout == timeout
    {
      this.store, this.timeout := store, timeout;
    }

    method StoreNonce(nonce: string, loginId: string)
      modifies store
      ensures store.View() == Stored(old(store.View()), timeout, nonce, loginId)
    {
      store.Set(KeyNames.Nonce(nonce), NonceRecord(loginId, Some(store.now)), Ttl(timeout));
    }

    method ValidateAndConsume(nonce: string, loginId: string) returns (r: Result<(), Error>)
      modifies store
      ensures (store.View(), r) == Consumed(old(store.View()), timeout, nonce, loginId)
    {
      if IsBlank(nonce) {
        return Err(InvalidToken);
      }
      var occupied := store.SetIfAbsent(KeyNames.Nonce(nonce), NonceRecord(loginId, Some(store.now)), Ttl(timeout));
      r := if occupied then Ok(()) else Err(NonceAlreadyUsed);
    }

    method CleanupExpired(replies: seq<ScanReply>) returns (r: Result<nat, Error>)
      modifies store
      ensures timeout <= 0 ==> r == Ok(0) && store.View() == old(store.View())
      ensures timeout > 0 ==>
                var (keys, failed) := Scanned(replies);
                var cutoff := old(store.now) - 1000 * timeout;
                && store.View() == Swept(old(store.View()), keys, cutoff)
                && r == if failed then Err(StorageError) else Ok(SweptCount(old(store.View()), keys, cutoff))
    {
      if timeout <= 0 {
        return Ok(0);
      }
      var removed := 0;
      var cutoff := store.now - 1000 * timeout;
      ghost var start := store.View();
      ghost var done: seq<Key> := [];
      var page := 0;
      assert replies[0..] == replies;
      while page < |replies|
        invariant 0 <= page <= |replies|
        invariant ScannedSoFar(replies, page, done)
        invariant store.View() == Swept(start, done, cutoff)
        invariant removed == SweptCount(start, done, cutoff)
        invariant page == |replies| ==> Scanned(replies) == (done, false)
      {
        ScannedStep(replies, page, done);
        match replies[page] {
          case Unsupported => break;
          case Failed => return Err(StorageError);
          case Page(keys, last) =>
            var n := SweepPage(keys, cutoff);
            SweptConcat(start, done, keys, cutoff);
            removed := removed + n;
            done := done + keys;
            if last {
              return Ok(removed);
            }
            page := page + 1;
        }
      }
      r := Ok(removed);
    }

    method SweepPage(keys: seq<Key>, cutoff: int) returns (removed: nat)
      modifies store
      ensures store.View() == Swept(old(store.View()), keys, cutoff)
      ensures removed == SweptCount(old(store.View()), keys, cutoff)
    {
      removed := 0;
      ghost var start := store.View();
      for i := 0 to |keys|
        invariant store.View() == Swept(start, keys[..i], cutoff)
        invariant removed == SweptCount(start, keys[..i], cutoff)
      {
        var record := store.Get(keys[i]);
        SweptConcat(start, keys[..i], [keys[i]], cutoff);
        assert keys[..i + 1] == keys[..i] + [keys[i]];
        if record.Some? && record.value.createdAt.Some? && record.value.createdAt.value < cutoff {
          store.Delete(keys[i]);
          removed := removed + 1;
        }
      }
      assert keys[..|keys|] == keys;
    }
  }

  // ---------- A whole run of consumption, marking, cleanup and time ----------

  datatype Event =
    | Elapse(ms: nat)
    | Consume(nonce: string, loginId: string)
    | Mark(nonce: string, loginId: string)
    | SweepKey(key: Key, startedAt: int)   // one key of a cleanup that began at `startedAt`

  function After(st: Nonces, timeout: int, e: Event): Nonces {
    match e
    case Elapse(ms) => st.Later(ms)
    case Consume(nonce, loginId) => Consumed(st, timeout, nonce, loginId).0
    case Mark(nonce, loginId) => Stored(st, timeout, nonce, loginId)
    case SweepKey(key, startedAt) =>
      if timeout > 0 && startedAt <= st.now then SweptKey(st, key, startedAt - 1000 * timeout) else st
  }

  /** The instants at which `nonce` is consumed successfully. */
  function ConsumeTimes(st: Nonces, timeout: int, events: seq<Event>, nonce: string): seq<int>
    decreases |events|
  {
    if events == [] then []
    else
      (if events[0].Consume? && events[0].nonce == nonce && Consumed(st, timeout, nonce, events[0].loginId).1.Ok?
       then [st.now] else [])
      + ConsumeTimes(After(st, timeout, events[0]), timeout, events[1..], nonce)
  }

  /** No stored record outlives its own stamp plus the timeout. */
  ghost predicate WellStamped(st: Nonces, timeout: int) {
    timeout > 0 ==>
      forall k :: k in st.scalars ==>
        (st.scalars[k].value.createdAt.Some? ==>
          (st.scalars[k].expireAt.Some?
           && st.scalars[k].expireAt.value <= st.scalars[k].value.createdAt.value + 1000 * timeout))
  }

  /** With a timeout the nonce is taken until `bound`, without one for ever. */
  predicate Taken(st: Nonces, timeout: int, nonce: string, bound: int) {
    var k := KeyNames.Nonce(nonce);
    if timeout > 0 then
      bound <= st.now + 1000 * timeout
      && (bound <= st.now || (k in st.scalars && (st.scalars[k].expireAt.None? || bound <= st.scalars[k].expireAt.value)))
    else
      k in st.scalars && st.scalars[k].expireAt.None?
  }

  lemma AfterKeepsTaken(st: Nonces, timeout: int, e: Event, nonce: string, bound: int)
    requires WellStamped(st, timeout) && Taken(st, timeout, nonce, bound)
    ensures WellStamped(After(st, timeout, e), timeout) && Taken(After(st, timeout, e), timeout, nonce, bound)
    ensures st.now <= After(st, timeout, e).now
  {
  }

  lemma AfterKeepsStamps(st: Nonces, timeout: int, e: Event)
    requires WellStamped(st, timeout)
    ensures WellStamped(After(st, timeout, e), timeout)
  {
  }

  lemma {:induction false} ConsumesNotBefore(st: Nonces, timeout: int, events: seq<Event>, nonce: string, bound: int)
    requires WellStamped(st, timeout) && Taken(st, timeout, nonce, bound)
    ensures timeout > 0 ==> forall t :: t in ConsumeTimes(st, timeout, events, nonce) ==> bound <= t
    ensures timeout <= 0 ==> ConsumeTimes(st, timeout, events, nonce) == []
    decreases |events|
  {
    if events != [] {
      AfterKeepsTaken(st, timeout, events[0], nonce, bound);
      ConsumesNotBefore(After(st, timeout, events[0]), timeout, events[1..], nonce, bound);
    }
  }

  /**
   Two successful consumptions of one nonce are at least the timeout apart; without a timeout there
   is at most one, ever.
   */
  lemma {:induction false} NonceSpacing(st: Nonces, timeout: int, events: seq<Event>, nonce: string)
    requires WellStamped(st, timeout)
    ensures var times := ConsumeTimes(st, timeout, events, nonce);
            && (timeout > 0 ==> forall i :: 0 <= i < |times| - 1 ==> times[i] + 1000 * timeout <= times[i + 1])
            && (timeout <= 0 ==> |times| <= 1)
    decreases |events|
  {
    if events != [] {
      var next := After(st, timeout, events[0]);
      AfterKeepsStamps(st, timeout, events[0]);
      NonceSpacing(next, timeout, events[1..], nonce);
      if events[0].Consume? && events[0].nonce == nonce && Consumed(st, timeout, nonce, events[0].loginId).1.Ok? {
        var rest := ConsumeTimes(next, timeout, events[1..], nonce);
        ConsumesNotBefore(next, timeout, events[1..], nonce, st.now + 1000 * timeout);
        assert rest != [] ==> rest[0] in rest;
        assert ConsumeTimes(st, timeout, events, nonce) == [st.now] + rest;
      }
    }
  }

  /** The spacing is tight: after a consumption the nonce is accepted again exactly when the timeout has passed. */
  lemma ConsumedAgainExactly(st: Nonces, timeout: int, nonce: string, first: string, second: string, ms: nat)
    requires Consumed(st, timeout, nonce, first).1.Ok?
    ensures Consumed(Consumed(st, timeout, nonce, first).0.Later(ms), timeout, nonce, second).1.Ok? <==>
            timeout > 0 && ms >= 1000 * timeout
  {
  }

  /**
   While every record is stored with the timeout in force, a cleanup finds nothing: a record old enough
   to be deleted has already expired. It can only delete what was stored under another timeout.
   */
  lemma {:induction false} CleanupDeletesNothing(st: Nonces, timeout: int, keys: seq<Key>, startedAt: int)
    requires timeout > 0 && WellStamped(st, timeout) && startedAt <= st.now
    ensures Swept(st, keys, startedAt - 1000 * timeout) == st
    ensures SweptCount(st, keys, startedAt - 1000 * timeout) == 0
    decreases |keys|
  {
    if keys != [] {
      assert SweptKey(st, keys[0], startedAt - 1000 * timeout) == st;
      CleanupDeletesNothing(st, timeout, keys[1..], startedAt);
    }
  }

  /** A cleanup started at some later instant deletes the record. */
  ghost predicate SweptSometime(st: Nonces, timeout: int, key: Key) {
    exists wait: nat :: Stale(st.Later(wait), key, st.now + wait - 1000 * timeout)
  }

  /** A cleanup can delete a live record exactly when its entry outlives the stamp plus the timeout in force. */
  lemma SweptSometimeExactly(st: Nonces, timeout: int, key: Key)
    requires timeout > 0 && key in st.scalars && st.scalars[key].value.createdAt.Some? && st.Get(key).Some?
    ensures var due := st.scalars[key].value.createdAt.value + 1000 * timeout;
            SweptSometime(st, timeout, key) <==>
              match st.scalars[key].expireAt case None => true case Some(e) => due + 1 < e
  {
    var due := st.scalars[key].value.createdAt.value + 1000 * timeout;
    var wait: nat := if due + 1 <= st.now then 0 else due + 1 - st.now;
    if st.scalars[key].expireAt.None? || due + 1 < st.scalars[key].expireAt.value {
      assert Stale(st.Later(wait), key, st.now + wait - 1000 * timeout);
    }
  }

  /** A cleanup of several keys is those single-key steps in order. */
  lemma {:induction false} SweepIsSteps(st: Nonces, timeout: int, keys: seq<Key>)
    requires timeout > 0
    ensures Swept(st, keys, st.now - 1000 * timeout) == AfterAll(st, timeout, Sweeps(keys, st.now))
    decreases |keys|
  {
    if keys != [] {
      var next := SweptKey(st, keys[0], st.now - 1000 * timeout);
      SweepIsSteps(next, timeout, keys[1..]);
      assert Sweeps(keys, st.now)[1..] == Sweeps(keys[1..], st.now);
    }
  }

  function Sweeps(keys: seq<Key>, startedAt: int): seq<Event> {
    if keys == [] then [] else [SweepKey(keys[0], startedAt)] + Sweeps(keys[1..], startedAt)
  }

  function AfterAll(st: Nonces, timeout: int, events: seq<Event>): Nonces
    decreases |events|
  {
    if events == [] then st else AfterAll(After(st, timeout, events[0]), timeout, events[1..])
  }

  // ---------- The timestamp inside a generated nonce ----------

  function Generate(nowMs: int, uuid: string): string {
    "nonce" + ['_'] + (Decimal.ToText(nowMs) + ['_'] + uuid)
  }

  /** Division of `i64` rounds toward zero. */
  function TruncDiv(a: int, b: int): int
    requires b > 0
  {
    if a >= 0 then a / b else -(-a / b)
  }

  function CheckTimestamp(nonce: string, nowMs: int, windowSecs: int): Result<bool, Error> {
    var parts := Text.Split(nonce, '_');
    if |parts| < 3 then Err(InvalidNonceFormat)
    else
      match Decimal.Parse(parts[1])
      case None => Err(InvalidNonceTimestamp)
      case Some(ms) =>
        var age := TruncDiv(nowMs - ms, 1000);
        Ok(0 <= age <= windowSecs)
  }

  lemma {:induction false} DigitsHaveNoUnderscore(n: nat)
    ensures '_' !in Decimal.Digits(n)
  {
    if n >= 10 {
      DigitsHaveNoUnderscore(n / 10);
    }
  }

  /**
   A generated nonce checks until its age reaches the window plus one second, and, because the age is
   truncated, also during the second before its own timestamp.
   */
  lemma GeneratedNonceChecks(madeAt: int, uuid: string, nowMs: int, windowSecs: int)
    requires Decimal.InRange(madeAt) && windowSecs >= 0
    ensures CheckTimestamp(Generate(madeAt, uuid), nowMs, windowSecs) ==
              Ok(-1000 < nowMs - madeAt < 1000 * (windowSecs + 1))
  {
    GeneratedParts(madeAt, uuid);
    Decimal.ParseOfText(madeAt);
    TruncatedAge(nowMs - madeAt, windowSecs);
  }

  lemma TruncatedAge(ms: int, windowSecs: int)
    requires windowSecs >= 0
    ensures 0 <= TruncDiv(ms, 1000) <= windowSecs <==> -1000 < ms < 1000 * (windowSecs + 1)
  {
  }

  lemma GeneratedParts(madeAt: int, uuid: string)
    ensures var parts := Text.Split(Generate(madeAt, uuid), '_');
            |parts| >= 3 && parts[1] == Decimal.ToText(madeAt)
  {
    var stamp := Decimal.ToText(madeAt);
    DigitsHaveNoUnderscore(if madeAt < 0 then -madeAt else madeAt);
    Text.SplitAtSeparator("nonce", stamp + ['_'] + uuid, '_');
    Text.SplitAtSeparator(stamp, uuid, '_');
    assert Text.Split(Generate(madeAt, uuid), '_') == ["nonce"] + ([stamp] + Text.Split(uuid, '_'));
  }

  /** The login nonce is rejected when blank, then when taken; otherwise it is taken, with this login and time on record. */
  lemma ConsumedExactly(st: Nonces, timeout: int, nonce: string, loginId: string)
    ensures var (after, r) := Consumed(st, timeout, nonce, loginId);
            var key := KeyNames.Nonce(nonce);
            && (r.Ok? <==> !IsBlank(nonce) && st.Get(key).None?)
            && (r == Err(InvalidToken) <==> IsBlank(nonce))
            && (r == Err(NonceAlreadyUsed) <==> !IsBlank(nonce) && st.Get(key).Some?)
            && (r.Err? ==> after == st)
            && (r.Ok? ==> after.Get(key) == Some(NonceRecord(loginId, Some(st.now))))
            && (forall k :: k != key ==> after.Get(k) == st.Get(k))
  {
  }

  /** A cleanup reports as many records as are then gone, and leaves the others as they were. */
  lemma {:induction false} SweptCountExactly(st: Nonces, keys: seq<Key>, cutoff: int)
    ensures var after := Swept(st, keys, cutoff);
            && SweptCount(st, keys, cutoff) == |st.scalars| - |after.scalars|
            && (forall k :: k in after.scalars ==> k in st.scalars && after.scalars[k] == st.scalars[k])
    decreases |keys|
  {
    if keys != [] {
      var next := SweptKey(st, keys[0], cutoff);
      SweptCountExactly(next, keys[1..], cutoff);
      if Stale(st, keys[0], cutoff) {
        OneFewer(st.scalars, keys[0]);
      }
    }
  }

  lemma OneFewer(m: map<Key, Entry<NonceRecord>>, k: Key)
    requires k in m
    ensures |m| == |m - {k}| + 1
  {
    assert (m - {k}).Keys == m.Keys - {k};
    assert |m| == |m.Keys| && |m - {k}| == |(m - {k}).Keys|;
  }

  /** A visited record goes exactly when it is live, has a stamp and that is older than the cutoff. */
  lemma {:induction false} SweptExactly(st: Nonces, keys: seq<Key>, cutoff: int, k: Key)
    requires k in st.scalars
    ensures k !in Swept(st, keys, cutoff).scalars <==>
            k in keys && st.scalars[k].Live(st.now)
            && st.scalars[k].value.createdAt.Some? && st.scalars[k].value.createdAt.value < cutoff
    decreases |keys|
  {
    if keys != [] {
      var next := SweptKey(st, keys[0], cutoff);
      if k in next.scalars {
        SweptExactly(next, keys[1..], cutoff, k);
      } else {
        SweptCountExactly(next, keys[1..], cutoff);
      }
    }
  }

  /** Blank is empty or nothing but white space. */
  lemma BlankTexts()
    ensures IsBlank("") && IsBlank(" ") && IsBlank("\t\r\n ") && IsBlank(['\U{00A0}', '\U{3000}'])
    ensures !IsBlank("n") && !IsBlank(" n ")
  {
    assert " n "[1] == 'n' && "n"[0] == 'n';
  }

  /** A stored nonce refuses consumption exactly until the timeout has passed, or for ever without one. */
  lemma StoredRefuses(st: Nonces, timeout: int, nonce: string, first: string, second: string, ms: nat)
    requires !IsBlank(nonce)
    ensures var later := Stored(st, timeout, nonce, first).Later(ms);
            Consumed(later, timeout, nonce, second).1 ==
              if timeout <= 0 || ms < 1000 * timeout then Err(NonceAlreadyUsed) else Ok(())
    ensures Stored(st, timeout, nonce, first).Get(KeyNames.Nonce(nonce)) == Some(NonceRecord(first, Some(st.now)))
  {
  }

  function AllKeys(pages: seq<seq<Key>>): seq<Key> {
    if pages == [] then [] else pages[0] + AllKeys(pages[1..])
  }

  /** Full pages, then one more reply. */
  function Replies(pages: seq<seq<Key>>, end: ScanReply): seq<ScanReply> {
    if pages == [] then [end] else [Page(pages[0], false)] + Replies(pages[1..], end)
  }

  /** A cleanup looks at all pages up to the last one, to an unsupported scan, or to an error, which it reports. */
  lemma {:induction false} ScannedExactly(pages: seq<seq<Key>>, end: ScanReply)
    requires end.Page? ==> end.last
    ensures Scanned(Replies(pages, end)) == (AllKeys(pages) + (if end.Page? then end.keys else []), end.Failed?)
  {
    var rest := if end.Page? then end.keys else [];
    if pages == [] {
      assert Replies(pages, end)[0] == end;
      assert [] + rest == rest;
    } else {
      ScannedExactly(pages[1..], end);
      assert Replies(pages, end)[1..] == Replies(pages[1..], end);
      assert pages[0] + (AllKeys(pages[1..]) + rest) == pages[0] + AllKeys(pages[1..]) + rest;
    }
  }

  /** A nonce text is refused for its form exactly with fewer than two underscores, then for its stamp. */
  lemma CheckTimestampErrors(nonce: string, nowMs: int, windowSecs: int)
    ensures CheckTimestamp(nonce, nowMs, windowSecs) == Err(InvalidNonceFormat) <==> Text.Count(nonce, '_') < 2
    ensures CheckTimestamp(nonce, nowMs, windowSecs) == Err(InvalidNonceTimestamp) <==>
            Text.Count(nonce, '_') >= 2 && (|Text.Split(nonce, '_')| > 1 ==> Decimal.Parse(Text.Split(nonce, '_')[1]).None?)
  {
    Text.SplitLength(nonce, '_');
  }
}
