/**
 All the maps a signed text can be read as (sa-token-core/src/sign.rs:54-132), and for which maps the
 signature is good for a bounded number of requests. `SignReplay` bounds one map.
 */
module SignReadings {
  import opened Wrappers
  import opened Text
  import opened Sign
  import opened SignReplay
  import Decimal

  // ---------- Where keys stand in a sorted map ----------

  lemma {:induction false} WithoutSignMembers(p: Params)
    ensures forall e :: e in WithoutSign(p) <==> e in p && e.key != "sign"
  {
    if p != [] {
      WithoutSignMembers(p[1..]);
    }
  }

  lemma {:induction false} WithoutSignSorted(p: Params)
    requires Sorted(p)
    ensures Sorted(WithoutSign(p))
  {
    if p != [] {
      WithoutSignSorted(p[1..]);
      WithoutSignMembers(p[1..]);
      var rest := WithoutSign(p[1..]);
      forall j | 0 <= j < |rest| ensures Less(p[0].key, rest[j].key) {
        assert rest[j] in p[1..];
        var i :| 0 <= i < |p[1..]| && p[1..][i] == rest[j];
        assert p[i + 1] == rest[j];
      }
    }
  }

  /** The place of the first entry with a key. */
  lemma {:induction false} Place(p: Params, key: string) returns (i: nat)
    requires Lookup(p, key).Some?
    ensures i < |p| && p[i] == Param(key, Lookup(p, key).value)
    ensures forall j :: 0 <= j < i ==> p[j].key != key
  {
    if p[0].key == key {
      i := 0;
    } else {
      var k := Place(p[1..], key);
      i := k + 1;
    }
  }

  lemma {:induction false} LookupAt(p: Params, i: nat)
    requires i < |p| && forall j :: 0 <= j < i ==> p[j].key != p[i].key
    ensures Lookup(p, p[i].key) == Some(p[i].value)
  {
    if i > 0 {
      LookupAt(p[1..], i - 1);
    }
  }

  lemma {:induction false} LookupAbsent(p: Params, key: string)
    requires forall e :: e in p ==> e.key != key
    ensures Lookup(p, key) == None
  {
    if p != [] {
      assert p[0] in p;
      LookupAbsent(p[1..], key);
    }
  }

  lemma KeyOrder()
    ensures Less("nonce", "timestamp") && '=' !in "timestamp" && '&' !in "timestamp" && '=' !in "nonce" && '&' !in "nonce"
  {
    assert |"nonce"| == 5 && |"timestamp"| == 9;
  }

  lemma Antisymmetric(a: string, b: string)
    requires Less(a, b)
    ensures !Less(b, a) && a != b
  {
    if Less(b, a) {
      LessTrans(a, b, a);
    }
    LessIrreflexive(a);
  }

  lemma InOrder(q: Params, i: nat, k: nat)
    requires Sorted(q) && i < |q| && k < |q| && Less(q[i].key, q[k].key)
    ensures i < k
  {
    LessIrreflexive(q[i].key);
    if k < i {
      Antisymmetric(q[i].key, q[k].key);
    }
  }

  lemma KeysDiffer(q: Params, i: nat, j: nat)
    requires Sorted(q) && i < |q| && j < |q| && q[i].key == q[j].key
    ensures i == j
  {
    LessIrreflexive(q[i].key);
  }

  // ---------- The condition ----------

  /** What the signer can check: the nonce is the only key before the timestamp's, and holds no `=`. */
  predicate Guarded(p: Params, nonce: string) {
    (forall e :: e in p && e.key != "sign" && Less(e.key, "timestamp") ==> e.key == "nonce") && '=' !in nonce
  }

  /** How many entries come before the timestamp, and that the nonce is one of them. */
  lemma TimestampPlace(p: Params, nonce: string, ts: int) returns (k: nat)
    requires Sorted(p) && Carries(p, nonce, ts)
    ensures var q := WithoutSign(p);
            && Sorted(q) && 0 < k < |q| && q[k].key == "timestamp" && Decimal.Parse(q[k].value) == Some(ts)
            && (exists i :: 0 <= i < k && q[i] == Param("nonce", nonce))
            && (Guarded(p, nonce) <==> k == 1 && '=' !in nonce)
  {
    var q := WithoutSign(p);
    WithoutSignSorted(p);
    WithoutSignMembers(p);
    LookupWithoutSign(p, "timestamp");
    LookupWithoutSign(p, "nonce");
    KeyOrder();
    k := Place(q, "timestamp");
    var i := Place(q, "nonce");
    InOrder(q, i, k);
    GuardedFirst(p, q, nonce, k, i);
  }

  lemma GuardedFirst(p: Params, q: Params, nonce: string, k: nat, i: nat)
    requires q == WithoutSign(p) && Sorted(q) && 0 <= i < k < |q| && q[k].key == "timestamp" && q[i] == Param("nonce", nonce)
    requires forall e :: e in q <==> e in p && e.key != "sign"
    ensures Guarded(p, nonce) <==> k == 1 && '=' !in nonce
  {
    if Guarded(p, nonce) && k > 1 {
      OnlyNonceBefore(p, q, nonce, k, if i == 0 then 1 else 0, i);
    }
    if k == 1 {
      forall e | e in p && e.key != "sign" && Less(e.key, "timestamp") ensures e.key == "nonce" {
        var j :| 0 <= j < |q| && q[j] == e;
        InOrder(q, j, 1);
      }
    }
  }

  lemma OnlyNonceBefore(p: Params, q: Params, nonce: string, k: nat, j: nat, i: nat)
    requires Guarded(p, nonce) && Sorted(q) && j < k < |q| && q[k].key == "timestamp" && i < |q| && q[i].key == "nonce"
    requires forall e :: e in q <==> e in p && e.key != "sign"
    ensures j == i
  {
    assert q[j] in q && Less(q[j].key, q[k].key);
    KeysDiffer(q, j, i);
  }

  // ---------- A guarded text has one reading ----------

  /** Key and value of a part are fixed by the text when neither key holds `=`. */
  lemma PartFixed(e: Param, key: string, rest: string)
    requires '=' !in e.key && '=' !in key && Part(e) == key + ['='] + rest
    ensures e == Param(key, rest)
  {
    IndexOfSeparator(e.key, e.value, '=');
    IndexOfSeparator(key, rest, '=');
    assert e.key == Part(e)[..|e.key|] && key == Part(e)[..|key|];
    assert e.value == Part(e)[|e.key| + 1..] && rest == Part(e)[|key| + 1..];
  }

  /** ... and also when the rest holds none, whatever the key. */
  lemma PartFixedByRest(e: Param, key: string, rest: string)
    requires '=' !in key && '=' !in rest && Part(e) == key + ['='] + rest
    ensures e == Param(key, rest)
  {
    var s := Part(e);
    assert s[|e.key|] == '=' && s[|key|] == '=';
    forall i | 0 <= i < |s| && i != |key| ensures s[i] != '=' {
      assert if i < |key| then s[i] == key[i] else s[i] == rest[i - |key| - 1];
    }
    assert e.key == s[..|e.key|] && key == s[..|key|];
    assert e.value == s[|e.key| + 1..] && rest == s[|key| + 1..];
  }

  lemma {:induction false} ValueIsDigits(s: string, c: char)
    requires Decimal.Value(s).Some? && !('0' <= c <= '9')
    ensures c !in s
  {
    assert s == s[..|s| - 1] + [s[|s| - 1]];
    if |s| > 1 {
      ValueIsDigits(s[..|s| - 1], c);
    }
  }

  lemma ParsedHoldsNoSeparator(s: string)
    requires Decimal.Parse(s).Some?
    ensures '&' !in s
  {
    var body := if s != "" && (s[0] == '-' || s[0] == '+') then s[1..] else s;
    ValueIsDigits(body, '&');
    assert s == body || s == [s[0]] + body;
  }

  /** The first part of a text that starts with `head` starts with it too. */
  lemma FirstPartStarts(head: string, rest: string, c: char)
    requires c !in head
    ensures head <= Split(head + rest, c)[0]
  {
    var s := head + rest;
    var i := IndexOf(s, c);
    assert forall k :: 0 <= k < |head| ==> s[k] == head[k];
    assert s[..i][..|head|] == head;
  }

  /** A part of the guarded map starts like a timestamp only if it is the timestamp. */
  lemma StartsLikeTimestamp(e: Param)
    requires '=' !in e.key && "timestamp" + ['='] <= Part(e)
    ensures e.key == "timestamp"
  {
    var head := "timestamp" + ['='];
    var rest := Part(e)[|head|..];
    KeyOrder();
    assert Part(e) == "timestamp" + ['='] + rest;
    PartFixed(e, "timestamp", rest);
  }

  /** Where the timestamp of another reading stands: its parts before are the nonce's part alone. */
  lemma ReadingStart(q: Params, r: Params, nonce: string, j: nat)
    requires Sorted(q) && Clean(q) && |q| > 1 && q[0] == Param("nonce", nonce) && q[1].key == "timestamp"
    requires Join(Parts(r), '&') == Join(Parts(q), '&')
    requires j < |r| && r[j].key == "timestamp"
    ensures j == 1 && Part(r[0]) == Part(q[0])
    ensures Split(Join(Parts(r[1..]), '&'), '&')[0] == Part(q[1])
  {
    var text := Join(Parts(q), '&');
    CleanSplit(q);
    NotFirst(q, r, j);
    var front, back := Join(Parts(r[..j]), '&'), Join(Parts(r[j..]), '&');
    assert r == r[..j] + r[j..];
    PartsConcat(r[..j], r[j..]);
    JoinConcat(Parts(r[..j]), Parts(r[j..]), '&');
    SplitConcat(front, back, '&');
    var a := Split(front, '&');
    assert Parts(q)[|a|] == Split(back, '&')[0];
    BackStarts(r[j..]);
    assert q[|a|] in q && CleanParam(q[|a|]);
    StartsLikeTimestamp(q[|a|]);
    KeysDiffer(q, 1, |a|);
    SplitLength(front, '&');
    JoinCount(Parts(r[..j]), '&');
    assert j == 1 && Parts(r[..1]) == [Part(r[0])] && front == Part(r[0]);
    CountZero(front, '&');
    assert Split(front, '&') == [front] && Parts(q)[0] == (a + Split(back, '&'))[0];
  }

  lemma CleanSplit(q: Params)
    requires q != [] && Clean(q)
    ensures Split(Join(Parts(q), '&'), '&') == Parts(q)
  {
    forall s | s in Parts(q) ensures '&' !in s {
      var i :| 0 <= i < |q| && Parts(q)[i] == s;
      assert q[i] in q && CleanParam(q[i]);
    }
    SplitJoin(Parts(q), '&');
  }

  lemma {:induction false} JoinStarts(parts: seq<string>, c: char)
    requires parts != []
    ensures parts[0] <= Join(parts, c)
  {
  }

  /** The text starts with the nonce's part, so no reading starts with a timestamp. */
  lemma NotFirst(q: Params, r: Params, j: nat)
    requires q != [] && q[0].key == "nonce" && Join(Parts(r), '&') == Join(Parts(q), '&')
    requires j < |r| && r[j].key == "timestamp"
    ensures j > 0
  {
    JoinStarts(Parts(q), '&');
    JoinStarts(Parts(r), '&');
    assert r[0].key == "timestamp" ==> Join(Parts(r), '&')[0] == Part(r[0])[0] == 't';
    assert Join(Parts(q), '&')[0] == Part(q[0])[0] == 'n';
  }

  lemma BackStarts(r: Params)
    requires r != [] && r[0].key == "timestamp"
    ensures "timestamp" + ['='] <= Split(Join(Parts(r), '&'), '&')[0]
  {
    var head := "timestamp" + ['='];
    var text := Join(Parts(r), '&');
    JoinStarts(Parts(r), '&');
    KeyOrder();
    assert head <= Part(r[0]) && Part(r[0]) <= text;
    assert text[..|head|] == head && text == head + text[|head|..];
    FirstPartStarts(head, text[|head|..], '&');
  }

  /** Whatever map is read from a guarded text, with a timestamp that parses it carries the same nonce and timestamp. */
  lemma GuardedReading(p: Params, nonce: string, ts: int, r: Params)
    requires Sorted(p) && Clean(WithoutSign(p)) && Carries(p, nonce, ts) && Guarded(p, nonce)
    requires Canonical(r) == Canonical(p) && Timestamp(r).Some?
    ensures Carries(r, nonce, ts)
  {
    var q, r' := WithoutSign(p), WithoutSign(r);
    var k := TimestampPlace(p, nonce, ts);
    LookupWithoutSign(r, "timestamp");
    LookupWithoutSign(r, "nonce");
    var j := Place(r', "timestamp");
    ReadingStart(q, r', nonce, j);
    KeyOrder();
    assert Part(r'[0]) == "nonce" + ['='] + nonce;
    PartFixedByRest(r'[0], "nonce", nonce);
    ParsedHoldsNoSeparator(r'[1].value);
    SecondPart(r', q[1]);
  }

  lemma SecondPart(r: Params, e: Param)
    requires |r| > 1 && r[1].key == "timestamp" == e.key && '&' !in r[1].value
    requires Split(Join(Parts(r[1..]), '&'), '&')[0] == Part(e)
    ensures r[1] == e
  {
    var part := Part(r[1]);
    KeyOrder();
    assert '&' !in part;
    if |r| == 2 {
      assert Parts(r[1..]) == [part];
      IndexIsEnd(part);
    } else {
      assert Parts(r[1..]) == [part] + Parts(r[2..]);
      JoinConcat([part], Parts(r[2..]), '&');
      SplitAtSeparator(part, Join(Parts(r[2..]), '&'), '&');
    }
    PartFixed(r[1], "timestamp", e.value);
  }

  lemma IndexIsEnd(s: string)
    requires '&' !in s
    ensures Split(s, '&') == [s]
  {
  }

  // ---------- An unguarded text reads the nonce away ----------

  /** `a` followed by `=` sorts before what `a` sorts before, when that is made of letters. */
  lemma {:induction false} LessExtended(a: string, b: string, rest: string)
    requires Less(a, b) && forall i :: 0 <= i < |b| ==> '=' < b[i]
    ensures Less(a + ['='] + rest, b)
  {
    var s := a + ['='] + rest;
    if a == "" {
      assert s[0] == '=';
    } else {
      assert s[0] == a[0] && s[1..] == a[1..] + ['='] + rest;
      if a[0] == b[0] {
        LessExtended(a[1..], b[1..], rest);
      }
    }
  }

  /** Everything before the timestamp as one parameter: its key is all up to the last `=`. */
  function Merged(front: string): Param
    requires '=' in front
  {
    var i := LastIndexOf(front, '=');
    Param(front[..i], front[i + 1..])
  }

  lemma KeyHoldsOne(e: Param)
    requires Count(Part(e), '=') >= 2 && '=' !in e.value
    ensures '=' in e.key
  {
    CountConcat(e.key + ['='], e.value, '=');
    CountConcat(e.key, ['='], '=');
    CountZero(e.value, '=');
    CountZero(e.key, '=');
  }

  lemma MergedPart(front: string)
    requires Count(front, '=') >= 2
    ensures '=' in front && Part(Merged(front)) == front && '=' in Merged(front).key
  {
    CountZero(front, '=');
    MergedIsPart(front);
    KeyHoldsOne(Merged(front));
  }

  lemma MergedIsPart(front: string)
    requires '=' in front
    ensures Part(Merged(front)) == front && '=' !in Merged(front).value
  {
    var i := LastIndexOf(front, '=');
    assert front == front[..i] + ['='] + front[i + 1..];
  }

  lemma ShorterPrefix(a: string, b: string, s: string)
    requires a <= s && b <= s && |a| <= |b|
    ensures a <= b
  {
  }

  /** A prefix that holds `=` is longer than a first word without one. */
  lemma PastFirst(m: string, key: string, s: string)
    requires m <= s && key <= s && '=' in m && '=' !in key
    ensures |key| < |m|
  {
    var i := IndexOf(m, '=');
    assert forall j :: 0 <= j < |key| ==> s[j] == key[j];
    assert s[i] == '=';
  }

  lemma MergedStarts(front: string, key: string, rest: string)
    requires '=' !in key && Count(front, '=') >= 2 && front == key + ['='] + rest && '=' in front
    ensures key + ['='] <= Merged(front).key
  {
    MergedPart(front);
    var m := Merged(front).key;
    PastFirst(m, key, front);
    ShorterPrefix(key + ['='], m, front);
  }

  /** Two `=` stand before the timestamp: two entries, or the nonce's own and one inside it. */
  lemma FrontHoldsTwo(q: Params, nonce: string, k: nat, i: nat)
    requires 0 < k <= |q| && i < k && q[i] == Param("nonce", nonce) && (k > 1 || '=' in nonce)
    ensures Count(Join(Parts(q[..k]), '&'), '=') >= 2
  {
    var parts := Parts(q[..k]);
    if k > 1 {
      forall s | s in parts ensures '=' in s {
        var m :| 0 <= m < |parts| && parts[m] == s;
        assert s == Part(q[m]) && s[|q[m].key|] == '=';
      }
      JoinHolds(parts, '&', '=');
    } else {
      assert parts == [Part(q[0])];
      CountConcat("nonce" + ['='], nonce, '=');
      CountConcat("nonce", ['='], '=');
      CountZero(nonce, '=');
    }
  }

  lemma FrontStarts(q: Params) returns (rest: string)
    requires q != []
    ensures Join(Parts(q), '&') == q[0].key + ['='] + rest
  {
    JoinStarts(Parts(q), '&');
    var text := Join(Parts(q), '&');
    rest := text[|q[0].key| + 1..];
    assert text == Part(q[0]) + text[|Part(q[0])|..];
    assert text == q[0].key + ['='] + (q[0].value + text[|Part(q[0])|..]);
  }

  /** The map whose first parameter is everything before the timestamp. */
  lemma MergedReading(q: Params, nonce: string, k: nat, i: nat)
    requires Sorted(q) && Clean(q) && 0 < k < |q| && q[k].key == "timestamp"
    requires i < k && q[i] == Param("nonce", nonce) && (k > 1 || '=' in nonce)
    requires forall e :: e in q ==> e.key != "sign"
    ensures var front := Join(Parts(q[..k]), '&');
            && '=' in front
            && var r := [Merged(front)] + q[k..];
               && Sorted(r) && Canonical(r) == Join(Parts(q), '&')
               && Lookup(r, "nonce") == None && Lookup(r, "timestamp") == Some(q[k].value)
  {
    var front := Join(Parts(q[..k]), '&');
    FrontHoldsTwo(q, nonce, k, i);
    MergedPart(front);
    var r := [Merged(front)] + q[k..];
    assert Merged(front).key != "nonce" && Merged(front).key != "sign" && Merged(front).key != "timestamp" by {
      KeyOrder();
      assert '=' !in "sign";
    }
    MergedBefore(q, k);
    SortsBefore(q, k, Merged(front));
    MergedText(q, k, Merged(front));
    MergedLookups(q, k, i, Merged(front));
  }

  lemma MergedBefore(q: Params, k: nat)
    requires Sorted(q) && Clean(q) && 0 < k < |q| && q[k].key == "timestamp"
    requires Count(Join(Parts(q[..k]), '&'), '=') >= 2 && '=' in Join(Parts(q[..k]), '&')
    ensures Less(Merged(Join(Parts(q[..k]), '&')).key, "timestamp")
  {
    var front, first := Join(Parts(q[..k]), '&'), q[0];
    var key := Merged(front).key;
    var rest := FrontStarts(q[..k]);
    assert first in q && CleanParam(first);
    MergedStarts(front, first.key, rest);
    assert Less(first.key, q[k].key);
    ExtendedKey(first.key, key);
  }

  lemma ExtendedKey(a: string, key: string)
    requires a + ['='] <= key && Less(a, "timestamp")
    ensures Less(key, "timestamp")
  {
    var tail := key[|a| + 1..];
    assert key == a + ['='] + tail;
    LessExtended(a, "timestamp", tail);
  }

  lemma SortsBefore(q: Params, k: nat, m: Param)
    requires Sorted(q) && k < |q| && Less(m.key, q[k].key)
    ensures Sorted([m] + q[k..])
  {
    var r := [m] + q[k..];
    forall j | 0 < j < |r| ensures Less(m.key, r[j].key) {
      assert r[j] == q[k + j - 1];
      if j > 1 {
        LessTrans(m.key, q[k].key, r[j].key);
      }
    }
    assert forall j :: 0 < j < |r| ==> r[j] == q[k + j - 1];
  }

  lemma MergedText(q: Params, k: nat, m: Param)
    requires 0 < k < |q| && Part(m) == Join(Parts(q[..k]), '&') && m.key != "sign"
    requires forall e :: e in q ==> e.key != "sign"
    ensures Canonical([m] + q[k..]) == Join(Parts(q), '&')
  {
    NoSignToDrop([m] + q[k..]);
    PartsConcat([m], q[k..]);
    assert Parts([m]) == [Part(m)];
    JoinConcat([Part(m)], Parts(q[k..]), '&');
    assert q == q[..k] + q[k..];
    PartsConcat(q[..k], q[k..]);
    JoinConcat(Parts(q[..k]), Parts(q[k..]), '&');
  }

  lemma PartsConcat(a: Params, b: Params)
    ensures Parts(a + b) == Parts(a) + Parts(b)
  {
  }

  lemma MergedLookups(q: Params, k: nat, i: nat, m: Param)
    requires Sorted(q) && i < k < |q| && q[k].key == "timestamp" && q[i].key == "nonce"
    requires m.key != "nonce" && m.key != "timestamp"
    ensures Lookup([m] + q[k..], "nonce") == None && Lookup([m] + q[k..], "timestamp") == Some(q[k].value)
  {
    var r, back := [m] + q[k..], q[k..];
    LessIrreflexive("nonce");
    forall e | e in back ensures e.key != "nonce" {
      var j :| 0 <= j < |back| && back[j] == e;
      assert Less(q[i].key, q[k + j].key);
    }
    assert r[1..] == back;
    LookupAbsent(back, "nonce");
    LookupAt(back, 0);
  }

  /** When the map is not guarded, a sorted map with the same text and timestamp holds no nonce. */
  lemma NonceReadAway(p: Params, nonce: string, ts: int) returns (r: Params)
    requires Sorted(p) && Clean(WithoutSign(p)) && Carries(p, nonce, ts) && !Guarded(p, nonce)
    ensures Sorted(r) && Canonical(r) == Canonical(p) && Lookup(r, "nonce") == None && Timestamp(r) == Some(ts)
  {
    var q := WithoutSign(p);
    var k := TimestampPlace(p, nonce, ts);
    var i :| 0 <= i < k && q[i] == Param("nonce", nonce);
    WithoutSignMembers(p);
    MergedReading(q, nonce, k, i);
    r := [Merged(Join(Parts(q[..k]), '&'))] + q[k..];
  }

  // ---------- Exactly which signatures are good for a bounded number of requests ----------

  /** Some run accepts this signature at least `n` times. */
  ghost predicate SignatureReaches(s: Signer, st: NonceStore, text: string, n: nat)
    requires s.Valid()
  {
    exists events: seq<Event> :: |Times(s, st, events, Reads(text))| >= n
  }

  ghost predicate AtMostThree(s: Signer, st: NonceStore, text: string)
    requires s.Valid()
  {
    forall events: seq<Event> :: |Times(s, st, events, Reads(text))| <= 3
  }

  lemma GuardedBound(s: Signer, st: NonceStore, events: seq<Event>, p: Params, nonce: string, ts: int)
    requires s.Valid() && s.attached && Sorted(p) && Clean(WithoutSign(p)) && Carries(p, nonce, ts) && Guarded(p, nonce)
    ensures var times := Times(s, st, events, Reads(Canonical(p)));
            && |times| <= 3
            && (|times| > 0 && times[0] / 1000 > ts ==> |times| == 1)
  {
    var counts := Reads(Canonical(p));
    forall i | 0 <= i < |events| && events[i].Verify? && counts(events[i]) && Timestamp(events[i].params).Some?
      ensures Carries(events[i].params, nonce, ts)
    {
      GuardedReading(p, nonce, ts, events[i].params);
    }
    AcceptsFit(s, st, events, counts, nonce, ts);
    FewFit(|Times(s, st, events, counts)|, s.windowSecs);
  }

  /** Inside its window a signature over an unguarded map is accepted any number of times. */
  lemma SignatureBoundFails(s: Signer, st: NonceStore, p: Params, nonce: string, ts: int, n: nat)
    requires s.Valid() && s.attached && s.secret != "" && WithinWindow(s, st.now / 1000, ts)
    requires Sorted(p) && Clean(WithoutSign(p)) && Carries(p, nonce, ts) && !Guarded(p, nonce)
    ensures SignatureReaches(s, st, Canonical(p), n)
  {
    var r := NonceReadAway(p, nonce, ts);
    CopiesAccepted(s, st, r, Reads(Canonical(p)), n);
    assert |Times(s, st, Copies(Signed(s, r), n), Reads(Canonical(p)))| >= n;
  }

  /**
   Over all maps and all runs a signature is accepted at most three times exactly when, in the signed
   map, the nonce is the only key before the timestamp's and holds no `=`. Otherwise there is no bound.
   */
  lemma SignatureBoundExactly(s: Signer, st: NonceStore, p: Params, nonce: string, ts: int)
    requires s.Valid() && s.attached && s.secret != "" && WithinWindow(s, st.now / 1000, ts)
    requires Sorted(p) && Clean(WithoutSign(p)) && Carries(p, nonce, ts)
    ensures AtMostThree(s, st, Canonical(p)) <==> Guarded(p, nonce)
    ensures !Guarded(p, nonce) ==> forall n: nat :: SignatureReaches(s, st, Canonical(p), n)
  {
    if Guarded(p, nonce) {
      forall events: seq<Event> ensures |Times(s, st, events, Reads(Canonical(p)))| <= 3 {
        GuardedBound(s, st, events, p, nonce, ts);
      }
    } else {
      forall n: nat ensures SignatureReaches(s, st, Canonical(p), n) {
        SignatureBoundFails(s, st, p, nonce, ts, n);
      }
      assert SignatureReaches(s, st, Canonical(p), 4);
      var events: seq<Event> :| |Times(s, st, events, Reads(Canonical(p)))| >= 4;
    }
  }
}
