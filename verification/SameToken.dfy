/**
 Same-Token rotation as one caller runs it (sa-token-core/src/same_token.rs). The token that
 `random_hex` draws is an argument. `SameTokenRace` interleaves the same calls.
 */
module SameToken {
  import opened Wrappers
  import opened Storage
  import ConstantTime

  datatype Slot = Current | Past

  datatype Error = SameTokenInvalid

  type Cluster = State<Slot, string>

  /** `.filter(|s| !s.is_empty())` */
  function Usable(t: Option<string>): Option<string> {
    if t == Some("") then None else t
  }

  function OkOrInvalid(t: Option<string>): Result<string, Error> {
    match t
    case Some(token) => Ok(token)
    case None => Err(SameTokenInvalid)
  }

  /** Which tokens the stored pair accepts. */
  ghost predicate Accepts(st: Cluster, token: string) {
    token != "" && (st.Get(Current) == Some(token) || st.Get(Past) == Some(token))
  }

  /** One refresh without interference: an empty stored token is the only thing that stops it. */
  function Refreshed(st: Cluster, timeout: int, next: string): (Cluster, Result<string, Error>) {
    var ttl := Ttl(timeout);
    match st.Get(Current)
    case None => (st.Put(Current, next, ttl), Ok(next))
    case Some(current) =>
      if current == "" then (st, Err(SameTokenInvalid))
      else (st.Put(Past, current, ttl).Put(Current, next, ttl), Ok(next))
  }

  class SameToken {
    const store: Store<Slot, string>
    const timeout: int

    constructor (store: Store<Slot, string>, timeout: int)
      ensures this.store == store && this.timeout == timeout
    {
      this.store, this.timeout := store, timeout;
    }

    /** Read current, write it to past, compare-and-swap in the next one, re-read after a loss. */
    method RefreshToken(next: string) returns (r: Result<string, Error>)
      modifies store
      ensures (store.View(), r) == Refreshed(old(store.View()), timeout, next)
    {
      var ttl := Ttl(timeout);
      var current := store.Get(Current);
      if current.Some? && current.value != "" {
        store.Set(Past, current.value, ttl);
      }
      var won := CompareAndSwap(store, Current, Usable(current), next, ttl);
      if won {
        return Ok(next);
      }
      var stored := store.Get(Current);
      r := OkOrInvalid(Usable(stored));
    }

    method GetToken(next: string) returns (r: Result<string, Error>)
      modifies store
      ensures var existing := Usable(old(store.View()).Get(Current));
              if existing.Some? then store.View() == old(store.View()) && r == Ok(existing.value)
              else (store.View(), r) == Refreshed(old(store.View()), timeout, next)
    {
      var existing := store.Get(Current);
      if existing.Some? && existing.value != "" {
        return Ok(existing.value);
      }
      r := RefreshToken(next);
    }

    method IsValid(token: string) returns (ok: bool)
      ensures ok <==> Accepts(store.View(), token)
    {
      if token == "" {
        return false;
      }
      var current := store.Get(Current);
      if current.Some? {
        var same := ConstantTime.SameText(current.value, token);
        if same {
          return true;
        }
      }
      var past := store.Get(Past);
      if past.None? {
        return false;
      }
      ok := ConstantTime.SameText(past.value, token);
    }
  }

  // ---------- A whole history of refreshes, one after another ----------

  datatype Rotation = Rotation(at: int, token: string)

  predicate Chronological(rs: seq<Rotation>) {
    (forall i :: 0 <= i < |rs| ==> rs[i].token != "") &&
    (forall i, j :: 0 <= i < j < |rs| ==> rs[i].at <= rs[j].at)
  }

  /** The store after these refreshes, from an empty one, at the time of the last. */
  function Rotated(timeout: int, rs: seq<Rotation>): Cluster {
    if rs == [] then State(map[], map[], 0)
    else
      var last := rs[|rs| - 1];
      Refreshed(Rotated(timeout, rs[..|rs| - 1]).(now := last.at), timeout, last.token).0
  }

  /** A value written at `at` is still there at `now`. */
  predicate Unexpired(timeout: int, at: int, now: int) {
    timeout <= 0 || now < at + 1000 * timeout
  }

  lemma {:induction false} RotatedSlots(timeout: int, rs: seq<Rotation>)
    requires Chronological(rs) && rs != []
    ensures var st := Rotated(timeout, rs);
            var last := rs[|rs| - 1];
            && st.now == last.at
            && Current in st.scalars
            && st.scalars[Current] == Entry(last.token, Deadline(last.at, Ttl(timeout)))
            && if |rs| >= 2 && Unexpired(timeout, rs[|rs| - 2].at, last.at)
               then Past in st.scalars && st.scalars[Past] == Entry(rs[|rs| - 2].token, Deadline(last.at, Ttl(timeout)))
               else Past in st.scalars ==> !st.scalars[Past].Live(last.at)
  {
    if |rs| >= 2 {
      var front := rs[..|rs| - 1];
      assert front[|front| - 1] == rs[|rs| - 2];
      RotatedSlots(timeout, front);
    } else {
      assert rs[..|rs| - 1] == [];
    }
  }

  /** After k refreshes exactly the last two tokens are accepted, each for as long as it is stored. */
  lemma GraceWindow(timeout: int, rs: seq<Rotation>, now: int, token: string)
    requires Chronological(rs) && rs != [] && rs[|rs| - 1].at <= now
    ensures var last := rs[|rs| - 1];
            Accepts(Rotated(timeout, rs).(now := now), token) <==>
              && Unexpired(timeout, last.at, now)
              && (|| token == last.token
                  || (|rs| >= 2 && token == rs[|rs| - 2].token && Unexpired(timeout, rs[|rs| - 2].at, last.at)))
  {
    RotatedSlots(timeout, rs);
  }

  /** A refresh some time after the one before it; `random_hex` never draws the empty string. */
  datatype Turn = Turn(wait: nat, token: string)

  predicate Drawn(turns: seq<Turn>) {
    forall i :: 0 <= i < |turns| ==> turns[i].token != ""
  }

  /** What lone refreshes return, one after another. */
  function RefreshAll(st: Cluster, timeout: int, turns: seq<Turn>): (results: seq<Result<string, Error>>)
    ensures |results| == |turns|
    decreases |turns|
  {
    if turns == [] then []
    else
      var first := Refreshed(st.Later(turns[0].wait), timeout, turns[0].token);
      [first.1] + RefreshAll(first.0, timeout, turns[1..])
  }

  /** How long after the start the `i`-th refresh comes. */
  function Waited(turns: seq<Turn>, i: nat): nat
    requires i < |turns|
  {
    turns[0].wait + if i == 0 then 0 else Waited(turns[1..], i - 1)
  }

  /** The stored current token is the empty string, and still there after `ms`. */
  predicate Wedged(st: Cluster, ms: nat) {
    st.Later(ms).Get(Current) == Some("")
  }

  /**
   Once the stored current token is the empty string no refresh repairs it: `expected` is then "absent",
   which the key is not. A lone refresh fails exactly until that token has expired.
   */
  lemma {:induction false} EmptyTokenWedges(st: Cluster, timeout: int, turns: seq<Turn>, i: nat)
    requires Drawn(turns) && i < |turns|
    ensures RefreshAll(st, timeout, turns)[i] ==
              if Wedged(st, Waited(turns, i)) then Err(SameTokenInvalid) else Ok(turns[i].token)
    decreases |turns|
  {
    var later := st.Later(turns[0].wait);
    var next := Refreshed(later, timeout, turns[0].token).0;
    if i > 0 {
      EmptyTokenWedges(next, timeout, turns[1..], i - 1);
      if later.Get(Current) != Some("") {
        assert next.scalars[Current].value != "";
      }
    }
  }
}
