/**
 The default `incr` and `decr` of the storage trait (sa-token-adapter/src/storage.rs:99-125): a read
 followed by a write, documented as not atomic.
 */
module Counter {
  import opened Wrappers
  import opened Storage
  import opened Decimal

  /** The number a stored text counts as. */
  function Count(text: Option<string>): int {
    match text
    case None => 0
    case Some(s) => match Parse(s) case Some(n) => n case None => 0
  }

  /** A missing key and a text that is no number count as zero. */
  lemma CountExactly(s: string, n: int)
    ensures Count(None) == 0
    ensures Parse(s).None? ==> Count(Some(s)) == 0
    ensures InRange(n) ==> Count(Some(ToText(n))) == n
  {
    ParseOfText(n);
  }

  method Incr(store: Store<string, string>, key: string) returns (n: int)
    modifies store
    ensures n == Count(old(store.View()).Get(key)) + 1
    ensures store.View() == old(store.View()).Put(key, ToText(n), None)
    ensures InRange(n) ==> Count(store.View().Get(key)) == n
  {
    n := Add(store, key, 1);
  }

  method Decr(store: Store<string, string>, key: string) returns (n: int)
    modifies store
    ensures n == Count(old(store.View()).Get(key)) - 1
    ensures store.View() == old(store.View()).Put(key, ToText(n), None)
    ensures InRange(n) ==> Count(store.View().Get(key)) == n
  {
    n := Add(store, key, -1);
  }

  method Add(store: Store<string, string>, key: string, delta: int) returns (n: int)
    modifies store
    ensures n == Count(old(store.View()).Get(key)) + delta
    ensures store.View() == old(store.View()).Put(key, ToText(n), None)
    ensures InRange(n) ==> Count(store.View().Get(key)) == n
  {
    var current := store.Get(key);
    n := Count(current) + delta;
    store.Set(key, ToText(n), None);
    ParseOfText(n);
  }

  // ---------- Overlapping calls ----------

  datatype Call =
    | Pending(up: bool)
    | HasRead(up: bool, value: int)
    | Returned(up: bool, value: int)

  datatype System = System(cell: Option<string>, calls: map<nat, Call>)

  function Delta(up: bool): int {
    if up then 1 else -1
  }

  predicate Step(s: System, t: System, p: nat) {
    p in s.calls &&
    match s.calls[p]
    case Pending(up) =>
      t == s.(calls := s.calls[p := HasRead(up, Count(s.cell))])
    case HasRead(up, value) =>
      t == System(Some(ToText(value + Delta(up))), s.calls[p := Returned(up, value + Delta(up))])
    case Returned(_, _) => false
  }

  ghost predicate Next(s: System, t: System) {
    exists p :: Step(s, t, p)
  }

  ghost predicate Run(run: seq<System>) {
    |run| > 0 && forall i :: 0 <= i < |run| - 1 ==> Next(run[i], run[i + 1])
  }

  /** A run that starts with nothing done on a counter at `c` that cannot leave the range of `i64`. */
  ghost predicate FromScratch(run: seq<System>, c: int) {
    && Run(run) && Count(run[0].cell) == c
    && (forall p :: p in run[0].calls ==> run[0].calls[p].Pending?)
    && I64_MIN <= c - |run[0].calls| && c + |run[0].calls| <= I64_MAX
  }

  predicate Finished(s: System) {
    forall p :: p in s.calls ==> s.calls[p].Returned?
  }

  /** The completed calls of one kind. */
  function Done(s: System, up: bool): set<nat> {
    set p | p in s.calls && s.calls[p].Returned? && s.calls[p].up == up
  }

  ghost predicate Within(s: System, c: int, value: int) {
    c - |Done(s, false)| <= value <= c + |Done(s, true)|
  }

  ghost predicate Bounded(s: System, c: int, n: nat) {
    && |s.calls| == n
    && Within(s, c, Count(s.cell))
    && (forall p :: p in s.calls && s.calls[p].HasRead? ==> Within(s, c, s.calls[p].value))
    && (|Done(s, false)| == 0 && |Done(s, true)| > 0 ==> Count(s.cell) > c)
  }

  lemma WriteCounts(s: System, t: System, p: nat)
    requires Step(s, t, p) && s.calls[p].HasRead?
    ensures |Done(t, s.calls[p].up)| == |Done(s, s.calls[p].up)| + 1
    ensures |Done(t, !s.calls[p].up)| == |Done(s, !s.calls[p].up)|
    ensures |t.calls| == |s.calls|
  {
    var up := s.calls[p].up;
    assert Done(t, up) == Done(s, up) + {p};
    assert Done(t, !up) == Done(s, !up);
    assert t.calls.Keys == s.calls.Keys;
  }

  lemma ReadCounts(s: System, t: System, p: nat)
    requires Step(s, t, p) && s.calls[p].Pending?
    ensures forall up :: Done(t, up) == Done(s, up)
    ensures |t.calls| == |s.calls|
  {
    assert t.calls.Keys == s.calls.Keys;
  }

  lemma DoneFits(s: System, up: bool)
    ensures |Done(s, up)| <= |s.calls|
  {
    Subset(Done(s, up), s.calls.Keys);
  }

  lemma {:induction false} Subset(a: set<nat>, b: set<nat>)
    requires a <= b
    ensures |a| <= |b|
  {
    if a != {} {
      var x :| x in a;
      Subset(a - {x}, b - {x});
    }
  }

  lemma StepKeepsBounds(s: System, t: System, p: nat, c: int, n: nat)
    requires Bounded(s, c, n) && Step(s, t, p) && I64_MIN <= c - n && c + n <= I64_MAX
    ensures Bounded(t, c, n)
  {
    if s.calls[p].Pending? {
      ReadCounts(s, t, p);
    } else {
      WriteCounts(s, t, p);
      DoneFits(t, true);
      DoneFits(t, false);
      ParseOfText(t.calls[p].value);
    }
  }

  lemma {:induction false} RunKeepsBounds(run: seq<System>, c: int, i: nat)
    requires FromScratch(run, c) && i < |run|
    ensures Bounded(run[i], c, |run[0].calls|)
    ensures forall p :: p in run[0].calls <==> p in run[i].calls
    ensures forall p :: p in run[0].calls ==> run[i].calls[p].up == run[0].calls[p].up
  {
    if i > 0 {
      RunKeepsBounds(run, c, i - 1);
      assert Next(run[i - 1], run[i]);
      var p :| Step(run[i - 1], run[i], p);
      StepKeepsBounds(run[i - 1], run[i], p, c, |run[0].calls|);
    } else {
      assert Done(run[0], true) == {} && Done(run[0], false) == {};
    }
  }

  /** n >= 1 overlapping increments of a counter at c end between c + 1 and c + n. */
  lemma OverlappingIncrements(run: seq<System>, c: int)
    requires FromScratch(run, c) && Finished(run[|run| - 1]) && |run[0].calls| > 0
    requires forall p :: p in run[0].calls ==> run[0].calls[p].up
    ensures c + 1 <= Count(run[|run| - 1].cell) <= c + |run[0].calls|
  {
    var last := run[|run| - 1];
    RunKeepsBounds(run, c, |run| - 1);
    assert Done(last, false) == {};
    assert Done(last, true) == last.calls.Keys;
  }

  /** Mixed increments and decrements end within the numbers of each. */
  lemma OverlappingMixed(run: seq<System>, c: int)
    requires FromScratch(run, c) && Finished(run[|run| - 1])
    ensures Within(run[|run| - 1], c, Count(run[|run| - 1].cell))
  {
    RunKeepsBounds(run, c, |run| - 1);
  }

  // ---------- No overlap: exact; full overlap: all but one update lost ----------

  predicate Serial(s: System) {
    forall p, q :: p in s.calls && q in s.calls && s.calls[p].HasRead? && s.calls[q].HasRead? ==> p == q
  }

  ghost predicate Exact(s: System, c: int) {
    && Count(s.cell) == c + |Done(s, true)| - |Done(s, false)|
    && forall p :: p in s.calls && s.calls[p].HasRead? ==> s.calls[p].value == Count(s.cell)
  }

  lemma SerialStepExact(s: System, t: System, p: nat, c: int)
    requires Exact(s, c) && Serial(s) && Step(s, t, p)
    requires I64_MIN <= c - |s.calls| && c + |s.calls| <= I64_MAX
    ensures Exact(t, c) && |t.calls| == |s.calls|
  {
    if s.calls[p].Pending? {
      ReadCounts(s, t, p);
    } else {
      WriteCounts(s, t, p);
      DoneFits(t, true);
      DoneFits(t, false);
      ParseOfText(t.calls[p].value);
      assert forall q :: q in t.calls ==> !t.calls[q].HasRead?;
    }
  }

  /** When no two calls overlap nothing is lost. */
  lemma {:induction false} SerialIsExact(run: seq<System>, c: int, i: nat)
    requires FromScratch(run, c) && i < |run|
    requires forall j :: 0 <= j < |run| ==> Serial(run[j])
    ensures Count(run[i].cell) == c + |Done(run[i], true)| - |Done(run[i], false)|
    ensures Exact(run[i], c) && |run[i].calls| == |run[0].calls|
  {
    if i > 0 {
      SerialIsExact(run, c, i - 1);
      assert Next(run[i - 1], run[i]);
      var p :| Step(run[i - 1], run[i], p);
      SerialStepExact(run[i - 1], run[i], p, c);
    } else {
      assert Done(run[0], true) == {} && Done(run[0], false) == {};
    }
  }

  /** When every call has read before the first writes, all but one increment are lost. */
  lemma {:induction false} FullOverlapLosesAllButOne(run: seq<System>, c: int, i: nat)
    requires Run(run) && i < |run| && InRange(c + 1)
    requires forall p :: p in run[0].calls ==> run[0].calls[p] == HasRead(true, c)
    ensures forall p :: p in run[i].calls ==> run[i].calls[p] == HasRead(true, c) || run[i].calls[p] == Returned(true, c + 1)
    ensures i > 0 ==> Count(run[i].cell) == c + 1
  {
    if i > 0 {
      FullOverlapLosesAllButOne(run, c, i - 1);
      assert Next(run[i - 1], run[i]);
      var p :| Step(run[i - 1], run[i], p);
      ParseOfText(c + 1);
    }
  }
}
