/**
 Any number of Same-Token calls interleaved at the granularity of single storage calls
 (sa-token-core/src/same_token.rs:48-105). A run is the sequence of states it passes through.
 */
module SameTokenRace {
  import opened Wrappers
  import opened Storage
  import opened SameToken

  /** Where one call stands; a call that has not started yet is at `Start`, `Fetch` or `Check`. */
  datatype Pc =
    | Fetch                                        // get_token, nothing read
    | Start                                        // refresh_token, nothing read
    | HasRead(seen: Option<string>)                // current has been read
    | Saved(seen: Option<string>)                  // ... and written to past
    | Drawn(seen: Option<string>, next: string)    // ... and the next token generated
    | Won(seen: Option<string>, token: string)     // the swap succeeded: returned `token`
    | Lost                                         // the swap failed
    | Adopted(token: string)                       // returned the stored token
    | Failed                                       // returned SameTokenInvalid
    | Check(candidate: string)                     // is_valid, nothing read
    | CheckPast(candidate: string)                 // is_valid, current did not match
    | Verdict(candidate: string, ok: bool)         // is_valid returned `ok`

  /** `drawn` holds every token that ever existed; `random_hex` never repeats one. */
  datatype System = System(
    current: Option<string>,
    past: Option<string>,
    calls: map<nat, Pc>,
    drawn: set<string>)
  {
    predicate At(p: nat, pc: Pc) {
      p in calls && calls[p] == pc
    }

    function To(p: nat, pc: Pc): System {
      this.(calls := calls[p := pc])
    }
  }

  function Seen(pc: Pc): Option<string> {
    if pc.HasRead? || pc.Saved? || pc.Drawn? || pc.Won? then pc.seen else None
  }

  function Pending(pc: Pc): Option<string> {
    if pc.Drawn? then Some(pc.next) else None
  }

  function Returned(pc: Pc): Option<string> {
    if pc.Won? || pc.Adopted? then Some(pc.token) else None
  }

  predicate Unstarted(pc: Pc) {
    pc.Fetch? || pc.Start? || pc.Check?
  }

  /** Call `p` performs its next storage call. */
  ghost predicate Step(s: System, t: System, p: nat) {
    p in s.calls &&
    match s.calls[p]
    case Fetch =>
      t == s.To(p, match Usable(s.current) case Some(token) => Adopted(token) case None => Start)
    case Start =>
      t == s.To(p, HasRead(s.current))
    case HasRead(seen) =>
      t == s.(past := if Usable(seen).Some? then seen else s.past).To(p, Saved(seen))
    case Saved(seen) =>
      exists next :: next !in s.drawn && next != "" && t == s.(drawn := s.drawn + {next}).To(p, Drawn(seen, next))
    case Drawn(seen, next) =>
      t == if s.current == Usable(seen) then s.(current := Some(next)).To(p, Won(seen, next)) else s.To(p, Lost)
    case Lost =>
      t == s.To(p, match Usable(s.current) case Some(token) => Adopted(token) case None => Failed)
    case Check(candidate) =>
      t == s.To(p, if candidate == "" then Verdict(candidate, false)
                   else if s.current == Some(candidate) then Verdict(candidate, true)
                   else CheckPast(candidate))
    case CheckPast(candidate) =>
      t == s.To(p, Verdict(candidate, s.past == Some(candidate)))
    case _ => false
  }

  /** A key expires. */
  predicate Expiry(s: System, t: System) {
    t == s.(current := None) || t == s.(past := None)
  }

  ghost predicate Next(s: System, t: System) {
    Expiry(s, t) || exists p :: Step(s, t, p)
  }

  ghost predicate Init(s: System) {
    && s.past == None
    && (s.current.Some? ==> s.current.value in s.drawn)
    && forall p :: p in s.calls ==> Unstarted(s.calls[p])
  }

  ghost predicate Run(run: seq<System>) {
    && |run| > 0
    && Init(run[0])
    && forall i :: 0 <= i < |run| - 1 ==> Next(run[i], run[i + 1])
  }

  // ---------- What every step keeps ----------

  ghost predicate Inv(s: System) {
    && (s.current.Some? ==> s.current.value in s.drawn)
    && (forall p :: p in s.calls && Seen(s.calls[p]).Some? ==> Seen(s.calls[p]).value in s.drawn)
    && (forall p :: p in s.calls && s.calls[p].Drawn? ==> Private(s, p, s.calls[p].next))
    && (forall p :: p in s.calls && s.calls[p].Won? && Usable(s.calls[p].seen).Some? ==> Retired(s, s.calls[p].seen.value))
    && (forall p, q :: p in s.calls && q in s.calls && p != q ==> !SameSwap(s.calls[p], s.calls[q]))
  }

  /** Two successful swaps of the same token. */
  predicate SameSwap(a: Pc, b: Pc) {
    a.Won? && b.Won? && a.seen == b.seen && Usable(a.seen).Some?
  }

  /** A token that was drawn but not yet swapped in is known to its call alone. */
  ghost predicate Private(s: System, p: nat, next: string) {
    && next in s.drawn && next != ""
    && s.current != Some(next)
    && (forall q :: q in s.calls ==> Seen(s.calls[q]) != Some(next))
    && (forall q :: q in s.calls && q != p ==> Pending(s.calls[q]) != Some(next))
  }

  /** A token that was swapped out never comes back. */
  ghost predicate Retired(s: System, token: string) {
    && s.current != Some(token)
    && forall q :: q in s.calls ==> Pending(s.calls[q]) != Some(token)
  }

  /** Every step but the draw and the successful swap. */
  lemma QuietStepKeepsInv(s: System, t: System, p: nat, pc: Pc, past: Option<string>)
    requires Inv(s) && p in s.calls && t == s.(past := past).To(p, pc)
    requires !pc.Drawn? && !pc.Won?
    requires Seen(pc) == None || Seen(pc) == s.current || Seen(pc) == Seen(s.calls[p])
    ensures Inv(t)
  {
    forall q | q in t.calls && t.calls[q].Drawn?
      ensures Private(t, q, t.calls[q].next)
    {
      assert Private(s, q, s.calls[q].next);
    }
    forall q | q in t.calls && t.calls[q].Won? && Usable(t.calls[q].seen).Some?
      ensures Retired(t, t.calls[q].seen.value)
    {
      assert Retired(s, s.calls[q].seen.value);
    }
  }

  lemma DrawKeepsInv(s: System, t: System, p: nat, next: string)
    requires Inv(s) && p in s.calls && s.calls[p].Saved? && next !in s.drawn && next != ""
    requires t == s.(drawn := s.drawn + {next}).To(p, Drawn(s.calls[p].seen, next))
    ensures Inv(t)
  {
    forall q | q in t.calls && t.calls[q].Drawn?
      ensures Private(t, q, t.calls[q].next)
    {
      if q != p {
        assert Private(s, q, s.calls[q].next);
      }
    }
    forall q | q in t.calls && t.calls[q].Won? && Usable(t.calls[q].seen).Some?
      ensures Retired(t, t.calls[q].seen.value)
    {
      assert Retired(s, s.calls[q].seen.value);
    }
  }

  lemma SwapKeepsInv(s: System, t: System, p: nat)
    requires Inv(s) && p in s.calls && s.calls[p].Drawn? && s.current == Usable(s.calls[p].seen)
    requires t == s.(current := Some(s.calls[p].next)).To(p, Won(s.calls[p].seen, s.calls[p].next))
    ensures Inv(t)
  {
    var next := s.calls[p].next;
    assert Private(s, p, next);
    forall q | q in t.calls && t.calls[q].Drawn?
      ensures Private(t, q, t.calls[q].next)
    {
      assert Private(s, q, s.calls[q].next);
    }
    forall q | q in t.calls && t.calls[q].Won? && Usable(t.calls[q].seen).Some?
      ensures Retired(t, t.calls[q].seen.value)
    {
      if q != p {
        assert Retired(s, s.calls[q].seen.value);
      }
    }
  }

  lemma StepKeepsInv(s: System, t: System, p: nat)
    requires Inv(s) && Step(s, t, p)
    ensures Inv(t)
  {
    match s.calls[p]
    case Saved(seen) =>
      var next :| next !in s.drawn && next != "" && t == s.(drawn := s.drawn + {next}).To(p, Drawn(seen, next));
      DrawKeepsInv(s, t, p, next);
    case Drawn(seen, next) =>
      if s.current == Usable(seen) {
        SwapKeepsInv(s, t, p);
      } else {
        QuietStepKeepsInv(s, t, p, Lost, s.past);
      }
    case Won(_, _) =>
    case Adopted(_) =>
    case Failed =>
    case Verdict(_, _) =>
    case _ =>
      QuietStepKeepsInv(s, t, p, t.calls[p], t.past);
  }

  lemma ExpiryKeepsInv(s: System, t: System)
    requires Inv(s) && Expiry(s, t)
    ensures Inv(t)
  {
  }

  lemma {:induction false} RunKeepsInv(run: seq<System>, i: nat)
    requires Run(run) && i < |run|
    ensures Inv(run[i])
  {
    if i > 0 {
      RunKeepsInv(run, i - 1);
      if Expiry(run[i - 1], run[i]) {
        ExpiryKeepsInv(run[i - 1], run[i]);
      } else {
        var p :| Step(run[i - 1], run[i], p);
        StepKeepsInv(run[i - 1], run[i], p);
      }
    }
  }

  /** Of the calls that first read the same token, at most one swaps it out. */
  lemma OneWinnerPerToken(run: seq<System>, i: nat, p: nat, q: nat)
    requires Run(run) && i < |run|
    requires p in run[i].calls && q in run[i].calls
    requires run[i].calls[p].Won? && run[i].calls[q].Won?
    requires run[i].calls[p].seen == run[i].calls[q].seen
    requires Usable(run[i].calls[p].seen).Some?
    ensures p == q
  {
    RunKeepsInv(run, i);
  }

  // ---------- What was current when ----------

  /** `token` was the stored current token at some point of the run up to position `i`. */
  ghost predicate WasCurrent(run: seq<System>, i: nat, token: string)
    requires i < |run|
  {
    exists j :: 0 <= j <= i && run[j].current == Some(token)
  }

  /** `token` was the stored current token at some instant of call `p`. */
  ghost predicate CurrentDuringCall(run: seq<System>, i: nat, p: nat, token: string)
    requires i < |run|
  {
    exists j :: 0 <= j <= i && p in run[j].calls && !Unstarted(run[j].calls[p]) && run[j].current == Some(token)
  }

  ghost predicate Traceable(run: seq<System>, i: nat)
    requires i < |run|
  {
    ValuesTraced(run, i) && ReturnsTraced(run, i)
  }

  ghost predicate ValuesTraced(run: seq<System>, i: nat)
    requires i < |run|
  {
    && (run[i].past.Some? ==> WasCurrent(run, i, run[i].past.value))
    && (forall p :: p in run[i].calls && Seen(run[i].calls[p]).Some? ==> WasCurrent(run, i, Seen(run[i].calls[p]).value))
    && (forall p :: p in run[i].calls && run[i].calls[p].Verdict? && run[i].calls[p].ok ==>
          WasCurrent(run, i, run[i].calls[p].candidate))
  }

  ghost predicate ReturnsTraced(run: seq<System>, i: nat)
    requires i < |run|
  {
    forall p :: p in run[i].calls && Returned(run[i].calls[p]).Some? ==>
      CurrentDuringCall(run, i, p, Returned(run[i].calls[p]).value)
  }

  lemma WasCurrentGrows(run: seq<System>, i: nat, token: string)
    requires i + 1 < |run| && WasCurrent(run, i, token)
    ensures WasCurrent(run, i + 1, token)
  {
    var j :| 0 <= j <= i && run[j].current == Some(token);
    assert 0 <= j <= i + 1 && run[j].current == Some(token);
  }

  lemma AllGrow(run: seq<System>, i: nat)
    requires i + 1 < |run|
    ensures forall token :: WasCurrent(run, i, token) ==> WasCurrent(run, i + 1, token)
  {
    forall token | WasCurrent(run, i, token) ensures WasCurrent(run, i + 1, token) {
      WasCurrentGrows(run, i, token);
    }
  }

  lemma DuringCallGrows(run: seq<System>, i: nat, p: nat, token: string)
    requires i + 1 < |run| && CurrentDuringCall(run, i, p, token)
    ensures CurrentDuringCall(run, i + 1, p, token)
  {
    var j :| 0 <= j <= i && p in run[j].calls && !Unstarted(run[j].calls[p]) && run[j].current == Some(token);
    assert 0 <= j <= i + 1 && p in run[j].calls && !Unstarted(run[j].calls[p]) && run[j].current == Some(token);
  }

  /** What a step may change, whichever call makes it. */
  lemma StepEffect(s: System, t: System, p: nat)
    requires Step(s, t, p)
    ensures t.calls.Keys == s.calls.Keys
    ensures forall q :: q in s.calls && q != p ==> t.calls[q] == s.calls[q]
    ensures t.past == s.past || (Seen(s.calls[p]).Some? && t.past == Seen(s.calls[p]))
    ensures Seen(t.calls[p]).None? || Seen(t.calls[p]) == s.current == t.current || Seen(t.calls[p]) == Seen(s.calls[p])
    ensures Returned(t.calls[p]).Some? ==> t.current == Returned(t.calls[p]) && !Unstarted(t.calls[p])
    ensures t.calls[p].Verdict? && t.calls[p].ok ==>
              Some(t.calls[p].candidate) == t.current || Some(t.calls[p].candidate) == t.past == s.past
  {
  }

  lemma StepTracesValues(run: seq<System>, i: nat, p: nat)
    requires i + 1 < |run| && ValuesTraced(run, i) && Step(run[i], run[i + 1], p)
    ensures ValuesTraced(run, i + 1)
  {
    var s, t := run[i], run[i + 1];
    StepEffect(s, t, p);
    AllGrow(run, i);
    assert t.current.Some? ==> WasCurrent(run, i + 1, t.current.value);
  }

  lemma StepTracesReturns(run: seq<System>, i: nat, p: nat)
    requires i + 1 < |run| && ReturnsTraced(run, i) && Step(run[i], run[i + 1], p)
    ensures ReturnsTraced(run, i + 1)
  {
    var s, t := run[i], run[i + 1];
    StepEffect(s, t, p);
    forall q | q in t.calls && Returned(t.calls[q]).Some?
      ensures CurrentDuringCall(run, i + 1, q, Returned(t.calls[q]).value)
    {
      if q != p {
        DuringCallGrows(run, i, q, Returned(t.calls[q]).value);
      }
    }
  }

  lemma ExpiryIsTraceable(run: seq<System>, i: nat)
    requires i + 1 < |run| && Traceable(run, i) && Expiry(run[i], run[i + 1])
    ensures Traceable(run, i + 1)
  {
    var t := run[i + 1];
    AllGrow(run, i);
    forall p | p in t.calls && Returned(t.calls[p]).Some?
      ensures CurrentDuringCall(run, i + 1, p, Returned(t.calls[p]).value)
    {
      DuringCallGrows(run, i, p, Returned(t.calls[p]).value);
    }
  }

  /**
   In every reachable state `past` is absent or was current earlier, each call's returned token was
   the stored current token at some instant of that call, and each accepted candidate was current.
   */
  lemma {:induction false} EveryTokenWasCurrent(run: seq<System>, i: nat)
    requires Run(run) && i < |run|
    ensures Traceable(run, i)
  {
    if i > 0 {
      EveryTokenWasCurrent(run, i - 1);
      if Expiry(run[i - 1], run[i]) {
        ExpiryIsTraceable(run, i - 1);
      } else {
        var p :| Step(run[i - 1], run[i], p);
        StepTracesValues(run, i - 1, p);
        StepTracesReturns(run, i - 1, p);
      }
    }
  }

  // ---------- Convergence of refreshers that read the same token ----------

  /** No call is still to make its first read. */
  predicate AllRead(s: System) {
    forall p :: p in s.calls ==> s.calls[p] != Start
  }

  predicate Finished(s: System) {
    forall p :: p in s.calls ==> s.calls[p].Won? || s.calls[p].Adopted? || s.calls[p].Failed?
  }

  /** Refreshers only, nothing expires, and nobody swaps before everybody has read `v`. */
  ghost predicate Race(run: seq<System>, v: string) {
    && |run| > 0
    && run[0].current == Some(v) && v != "" && v in run[0].drawn
    && run[0].calls != map[]
    && (forall p :: p in run[0].calls ==> run[0].calls[p] == Start)
    && forall i :: 0 <= i < |run| - 1 ==> RaceStep(run[i], run[i + 1])
  }

  ghost predicate RaceStep(s: System, t: System) {
    exists p :: Step(s, t, p) && (s.calls[p].Drawn? ==> AllRead(s))
  }

  /** Before the first swap. */
  ghost predicate Gathering(s: System, v: string) {
    && s.current == Some(v)
    && forall p :: p in s.calls ==>
         match s.calls[p]
         case Start => true
         case HasRead(seen) => seen == Some(v)
         case Saved(seen) => seen == Some(v) == s.past
         case Drawn(seen, next) => seen == Some(v) == s.past && next != "" && next != v
         case _ => false
  }

  /** After call `w` swapped `v` for `token`. */
  ghost predicate Settled(s: System, v: string, w: nat, token: string) {
    && s.current == Some(token) && token != "" && token != v && s.past == Some(v)
    && s.At(w, Won(Some(v), token))
    && forall p :: p in s.calls && p != w ==>
         match s.calls[p]
         case HasRead(seen) => seen == Some(v)
         case Saved(seen) => seen == Some(v)
         case Drawn(seen, _) => seen == Some(v)
         case Lost => true
         case Adopted(returned) => returned == token
         case _ => false
  }

  ghost predicate Converging(s: System, v: string) {
    && v in s.drawn && v != "" && s.calls != map[]
    && (Gathering(s, v) || exists w, token :: Settled(s, v, w, token))
  }

  lemma GatheringStep(s: System, t: System, v: string, p: nat)
    requires Gathering(s, v) && v in s.drawn && v != "" && Step(s, t, p) && (s.calls[p].Drawn? ==> AllRead(s))
    ensures Gathering(t, v) || (s.calls[p].Drawn? && Settled(t, v, p, s.calls[p].next))
  {
  }

  lemma SettledStep(s: System, t: System, v: string, w: nat, token: string, p: nat)
    requires Settled(s, v, w, token) && Step(s, t, p)
    ensures Settled(t, v, w, token)
  {
  }

  lemma {:induction false} RaceConverges(run: seq<System>, v: string, i: nat)
    requires Race(run, v) && i < |run|
    ensures Converging(run[i], v)
  {
    if i > 0 {
      RaceConverges(run, v, i - 1);
      var s, t := run[i - 1], run[i];
      assert RaceStep(s, t);
      var p :| Step(s, t, p) && (s.calls[p].Drawn? ==> AllRead(s));
      StepEffect(s, t, p);
      assert p in t.calls;
      if Gathering(s, v) {
        GatheringStep(s, t, v, p);
      } else {
        var w, token :| Settled(s, v, w, token);
        SettledStep(s, t, v, w, token, p);
      }
    } else {
      assert Gathering(run[0], v);
    }
  }

  /** One call swapped, all others returned its token, and a validator accepts both tokens. */
  ghost predicate Agreed(s: System, v: string, w: nat, token: string) {
    && s.At(w, Won(Some(v), token))
    && (forall p :: p in s.calls && p != w ==> s.calls[p] == Adopted(token))
    && s.current == Some(token) && s.past == Some(v) && token != v && token != ""
  }

  ghost predicate AllAgree(s: System, v: string) {
    exists w, token :: Agreed(s, v, w, token)
  }

  /** In every interleaving that has run to the end exactly one swap won and everybody agrees. */
  lemma RefreshersConverge(run: seq<System>, v: string)
    requires Race(run, v) && Finished(run[|run| - 1])
    ensures AllAgree(run[|run| - 1], v)
  {
    var last := run[|run| - 1];
    RaceConverges(run, v, |run| - 1);
    if Gathering(last, v) {
      var p :| p in last.calls;
      assert false;
    }
    var w, token :| Settled(last, v, w, token);
    assert Agreed(last, v, w, token);
  }

  // ---------- The grace window of is_valid ----------

  predicate Validating(pc: Pc) {
    pc.Check? || pc.CheckPast?
  }

  /** A stretch of a run in which nothing expires and no call but `r` refreshes. */
  ghost predicate Window(run: seq<System>, s: System, r: nat) {
    && |run| > 0 && run[0] == s
    && forall i :: 0 <= i < |run| - 1 ==> WindowStep(run[i], run[i + 1], r)
  }

  ghost predicate WindowStep(s: System, t: System, r: nat) {
    exists p :: Step(s, t, p) && (p == r || Validating(s.calls[p]))
  }

  /** Call `r` has saved `token` to past and may still swap it out, but past no longer holds it. */
  predicate Clobbered(s: System, token: string, r: nat) {
    && r in s.calls && (s.calls[r].Saved? || s.calls[r].Drawn?)
    && s.calls[r].seen == Some(token)
    && s.past != Some(token)
  }

  /** Validator `q`, checking `token`, is accepting it or still bound to. */
  predicate Shielded(s: System, q: nat, r: nat, token: string) {
    q in s.calls && r in s.calls && q != r &&
    var still := s.current == Some(token) && !Clobbered(s, token, r);
    var moved := s.past == Some(token) && s.calls[r].Won?;
    match s.calls[q]
    case Check(c) => c == token && (still || moved)
    case CheckPast(c) => c == token && moved
    case Verdict(c, ok) => c == token && ok
    case _ => false
  }

  lemma WindowStepShields(s: System, t: System, q: nat, r: nat, token: string, p: nat)
    requires Shielded(s, q, r, token) && token != "" && Step(s, t, p) && (p == r || Validating(s.calls[p]))
    ensures Shielded(t, q, r, token)
  {
  }

  lemma {:induction false} WindowShields(run: seq<System>, q: nat, r: nat, token: string, i: nat)
    requires i < |run| && Window(run, run[0], r) && Shielded(run[0], q, r, token) && token != ""
    ensures Shielded(run[i], q, r, token)
  {
    if i > 0 {
      WindowShields(run, q, r, token, i - 1);
      assert WindowStep(run[i - 1], run[i], r);
      var p :| Step(run[i - 1], run[i], p) && (p == r || Validating(run[i - 1].calls[p]));
      WindowStepShields(run[i - 1], run[i], q, r, token, p);
    }
  }

  predicate Rejected(s: System, q: nat) {
    q in s.calls && s.calls[q].Verdict? && !s.calls[q].ok
  }

  /** Some continuation of `s` in which only `r` refreshes makes validator `q` reject. */
  ghost predicate CanReject(s: System, q: nat, r: nat) {
    exists run: seq<System> :: Window(run, s, r) && Rejected(run[|run| - 1], q)
  }

  /** `r` swaps the token out, then the validator makes both its reads. */
  lemma ClobberedRejects(s: System, q: nat, r: nat, token: string, unused: string)
    requires s.At(q, Check(token)) && q != r && token != "" && s.current == Some(token) && token in s.drawn
    requires s.At(r, Drawn(Some(token), unused)) && unused != token && s.past != Some(token)
    ensures CanReject(s, q, r)
  {
    var s1 := s.(current := Some(unused)).To(r, Won(Some(token), unused));
    var s2 := s1.To(q, CheckPast(token));
    var s3 := s2.To(q, Verdict(token, false));
    var run := [s, s1, s2, s3];
    assert Step(s, s1, r) && Step(s1, s2, q) && Step(s2, s3, q);
    assert WindowStep(run[0], run[1], r) && WindowStep(run[1], run[2], r) && WindowStep(run[2], run[3], r);
    assert Window(run, s, r);
  }

  lemma ExtendReject(s: System, t: System, q: nat, r: nat)
    requires Step(s, t, r) && CanReject(t, q, r)
    ensures CanReject(s, q, r)
  {
    var run: seq<System> :| Window(run, t, r) && Rejected(run[|run| - 1], q);
    var longer := [s] + run;
    forall i | 0 <= i < |longer| - 1 ensures WindowStep(longer[i], longer[i + 1], r) {
      if i > 0 {
        assert WindowStep(run[i - 1], run[i], r);
      }
    }
    assert Window(longer, s, r);
    assert longer[|longer| - 1] == run[|run| - 1];
  }

  /**
   A validator starts while its token is current, and at most one refresh `r` overlaps it. It can be
   rejected exactly when another writer has replaced what `r` saved to past before the validator began.
   */
  lemma GraceExactly(s: System, q: nat, r: nat, token: string, unused: string)
    requires Inv(s) && s.At(q, Check(token)) && r in s.calls && q != r && token != "" && s.current == Some(token)
    requires unused !in s.drawn && unused != ""
    ensures CanReject(s, q, r) <==> Clobbered(s, token, r)
  {
    if Clobbered(s, token, r) {
      if s.calls[r].Saved? {
        var t := s.(drawn := s.drawn + {unused}).To(r, Drawn(Some(token), unused));
        assert Step(s, t, r);
        ClobberedRejects(t, q, r, token, unused);
        ExtendReject(s, t, q, r);
      } else {
        assert Private(s, r, s.calls[r].next);
        ClobberedRejects(s, q, r, token, s.calls[r].next);
      }
    } else if CanReject(s, q, r) {
      var run: seq<System> :| Window(run, s, r) && Rejected(run[|run| - 1], q);
      assert Shielded(run[0], q, r, token);
      WindowShields(run, q, r, token, |run| - 1);
    }
  }

  // ---------- Refreshes that do not overlap never clobber ----------

  predicate Midway(pc: Pc) {
    pc.HasRead? || pc.Saved? || pc.Drawn?
  }

  /** At most one call is between its first read and its swap. */
  predicate Serial(s: System) {
    forall p, q :: p in s.calls && q in s.calls && Midway(s.calls[p]) && Midway(s.calls[q]) ==> p == q
  }

  predicate Unclobbered(s: System) {
    forall r :: r in s.calls && (s.calls[r].Saved? || s.calls[r].Drawn?) && Usable(s.calls[r].seen).Some?
                ==> s.past == s.calls[r].seen
  }

  lemma SerialStep(s: System, t: System, p: nat)
    requires Serial(s) && Unclobbered(s) && Step(s, t, p)
    ensures Unclobbered(t)
  {
    StepEffect(s, t, p);
    if s.calls[p].HasRead? {
      assert forall q :: q in s.calls && q != p ==> !Midway(s.calls[q]);
    }
  }

  /** Nothing expires. */
  ghost predicate Unexpired(s: System, t: System) {
    exists p :: Step(s, t, p)
  }

  lemma {:induction false} SerialNeverClobbers(run: seq<System>, i: nat, token: string, r: nat)
    requires Run(run) && i < |run| && token != ""
    requires forall j :: 0 <= j < |run| ==> Serial(run[j])
    requires forall j :: 0 <= j < |run| - 1 ==> Unexpired(run[j], run[j + 1])
    ensures Unclobbered(run[i]) && !Clobbered(run[i], token, r)
  {
    if i > 0 {
      SerialNeverClobbers(run, i - 1, token, r);
      assert Unexpired(run[i - 1], run[i]);
      var p :| Step(run[i - 1], run[i], p);
      SerialStep(run[i - 1], run[i], p);
    }
  }

  lemma Extend(run: seq<System>, t: System, p: nat) returns (longer: seq<System>)
    requires Run(run) && Step(run[|run| - 1], t, p)
    ensures Run(longer) && longer[|longer| - 1] == t
  {
    longer := run + [t];
    forall i | 0 <= i < |longer| - 1 ensures Next(longer[i], longer[i + 1]) {
      if i < |run| - 1 {
        assert Next(run[i], run[i + 1]);
      }
    }
  }

  /** Calls 0 and 1 read "u", call 0 replaces it by "t". */
  lemma ClobberStart() returns (run: seq<System>)
    ensures Run(run)
    ensures var s := run[|run| - 1];
            && s.current == Some("t") && s.drawn == {"u", "t"}
            && s.At(0, Won(Some("u"), "t")) && s.At(1, HasRead(Some("u"))) && s.At(2, Start) && s.At(3, Check("t"))
  {
    var u, t := Some("u"), Some("t");
    var s0 := System(u, None, map[0 := Start, 1 := Start, 2 := Start, 3 := Check("t")], {"u"});
    var s1 := s0.To(1, HasRead(u));
    var s2 := s1.To(0, HasRead(u));
    var s3 := s2.(past := u).To(0, Saved(u));
    var s4 := s3.(drawn := s3.drawn + {"t"}).To(0, Drawn(u, "t"));
    var s5 := s4.(current := t).To(0, Won(u, "t"));
    run := [s0];
    run := Extend(run, s1, 1);
    run := Extend(run, s2, 0);
    run := Extend(run, s3, 0);
    assert "t" !in s3.drawn;
    run := Extend(run, s4, 0);
    run := Extend(run, s5, 0);
  }

  /** ... then call 2 reads "t" and saves it. */
  lemma ClobberPrefix() returns (run: seq<System>)
    ensures Run(run)
    ensures var s := run[|run| - 1];
            && s.current == Some("t") && s.drawn == {"u", "t"}
            && s.At(0, Won(Some("u"), "t")) && s.At(1, HasRead(Some("u"))) && s.At(2, Saved(Some("t"))) && s.At(3, Check("t"))
  {
    run := ClobberStart();
    var t := Some("t");
    var s5 := run[|run| - 1];
    var s6 := s5.To(2, HasRead(t));
    var s7 := s6.(past := t).To(2, Saved(t));
    run := Extend(run, s6, 2);
    run := Extend(run, s7, 2);
  }

  /**
   The clobbered state is reachable: a refresher (1) that read the older token "u" writes it to past
   after refresher 2 saved "t", finishes, and only then validator 3 starts.
   */
  lemma ClobberIsReachable() returns (run: seq<System>)
    ensures Run(run)
    ensures var s := run[|run| - 1];
            && s.current == Some("t") && s.At(3, Check("t")) && Clobbered(s, "t", 2)
            && s.At(0, Won(Some("u"), "t")) && s.At(1, Adopted("t"))
  {
    run := ClobberPrefix();
    var u := Some("u");
    var s7 := run[|run| - 1];
    var s8 := s7.(past := u).To(1, Saved(u));
    run := Extend(run, s8, 1);
    assert "x" !in s8.drawn;
    var s9 := s8.(drawn := s8.drawn + {"x"}).To(1, Drawn(u, "x"));
    run := Extend(run, s9, 1);
    var s10 := s9.To(1, Lost);
    run := Extend(run, s10, 1);
    var s11 := s10.To(1, Adopted("t"));
    run := Extend(run, s11, 1);
  }

  // ---------- A lone refresh is the sequential one ----------

  predicate Holds(st: Cluster, s: System) {
    st.Get(Current) == s.current && st.Get(Past) == s.past
  }

  predicate Outcome(pc: Pc, r: Result<string, Error>) {
    match r
    case Ok(token) => Returned(pc) == Some(token)
    case Err(_) => pc == Failed
  }

  /** The steps of a call that nobody disturbs end where `SameToken.Refreshed` says. */
  lemma LoneRefreshIsSequential(s: System, p: nat, next: string, st: Cluster, timeout: int) returns (run: seq<System>)
    requires s.At(p, Start) && next !in s.drawn && next != "" && Holds(st, s)
    ensures |run| > 0 && run[0] == s
    ensures forall i :: 0 <= i < |run| - 1 ==> Step(run[i], run[i + 1], p)
    ensures var (after, r) := Refreshed(st, timeout, next);
            Holds(after, run[|run| - 1]) && p in run[|run| - 1].calls && Outcome(run[|run| - 1].calls[p], r)
  {
    var seen := s.current;
    var s1 := s.To(p, HasRead(seen));
    var s2 := s1.(past := if Usable(seen).Some? then seen else s.past).To(p, Saved(seen));
    var s3 := s2.(drawn := s.drawn + {next}).To(p, Drawn(seen, next));
    assert Step(s, s1, p) && Step(s1, s2, p) && Step(s2, s3, p);
    if seen == Some("") {
      var s4, s5 := s3.To(p, Lost), s3.To(p, Failed);
      assert s5 == s4.To(p, Failed);
      assert Step(s3, s4, p) && Step(s4, s5, p);
      run := [s, s1, s2, s3, s4, s5];
    } else {
      var s4 := s3.(current := Some(next)).To(p, Won(seen, next));
      assert Step(s3, s4, p);
      run := [s, s1, s2, s3, s4];
    }
  }

  /** The steps of an undisturbed `get_token` end where the sequential call says. */
  lemma LoneFetchIsSequential(s: System, p: nat, next: string, st: Cluster, timeout: int) returns (run: seq<System>)
    requires s.At(p, Fetch) && next !in s.drawn && next != "" && Holds(st, s)
    ensures |run| > 0 && run[0] == s
    ensures forall i :: 0 <= i < |run| - 1 ==> Step(run[i], run[i + 1], p)
    ensures var existing := Usable(st.Get(Current));
            var (after, r) := if existing.Some? then (st, Ok(existing.value)) else Refreshed(st, timeout, next);
            Holds(after, run[|run| - 1]) && p in run[|run| - 1].calls && Outcome(run[|run| - 1].calls[p], r)
  {
    if Usable(s.current).Some? {
      var s1 := s.To(p, Adopted(s.current.value));
      assert Step(s, s1, p);
      run := [s, s1];
    } else {
      var s1 := s.To(p, Start);
      assert Step(s, s1, p);
      var rest := LoneRefreshIsSequential(s1, p, next, st, timeout);
      run := [s] + rest;
      assert forall i :: 0 < i < |run| ==> run[i] == rest[i - 1];
    }
  }

  /** The two reads of an undisturbed `is_valid` end in the verdict of the sequential call. */
  lemma LoneCheckIsSequential(s: System, p: nat, token: string, st: Cluster) returns (run: seq<System>)
    requires s.At(p, Check(token)) && Holds(st, s)
    ensures |run| > 0 && run[0] == s
    ensures forall i :: 0 <= i < |run| - 1 ==> Step(run[i], run[i + 1], p)
    ensures run[|run| - 1] == s.To(p, Verdict(token, Accepts(st, token)))
  {
    if token == "" || s.current == Some(token) {
      var s1 := s.To(p, Verdict(token, token != ""));
      assert Step(s, s1, p);
      run := [s, s1];
    } else {
      var s1, s2 := s.To(p, CheckPast(token)), s.To(p, Verdict(token, s.past == Some(token)));
      assert s2 == s1.To(p, Verdict(token, s.past == Some(token)));
      assert Step(s, s1, p) && Step(s1, s2, p);
      run := [s, s1, s2];
    }
  }
}
