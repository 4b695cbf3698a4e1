/**
 The contract of the storage adapter (sa-token-adapter/src/storage.rs:60-215) as the protocols
 above it use it: scalars with an optional expiry, append-unique lists, set-if-absent and
 compare-and-swap. Times are in milliseconds. One trait call is one atomic step.
 */
module Storage {
  import opened Wrappers
  import opened Seqs

  datatype Entry<+V> = Entry(value: V, expireAt: Option<int>) {
    /** A key written with a time to live of `d` is absent once `d` has elapsed. */
    predicate Live(now: int) {
      expireAt.None? || now < expireAt.value
    }
  }

  function Deadline(now: int, ttl: Option<nat>): Option<int> {
    match ttl
    case None => None
    case Some(d) => Some(now + d)
  }

  /** `Duration::from_secs` for a positive timeout, no expiry otherwise. */
  function Ttl(timeoutSecs: int): Option<nat> {
    if timeoutSecs > 0 then Some(1000 * timeoutSecs) else None
  }

  function Remove(s: seq<string>, x: string): (r: seq<string>)
    ensures forall y :: y in r <==> y in s && y != x
    ensures |r| <= |s|
  {
    if s == [] then []
    else if s[0] == x then Remove(s[1..], x)
    else [s[0]] + Remove(s[1..], x)
  }

  ghost predicate Distinct<T>(s: seq<T>) {
    forall i, j :: 0 <= i < j < |s| ==> s[i] != s[j]
  }

  lemma {:induction false} RemoveKeepsDistinct(s: seq<string>, x: string)
    requires Distinct(s)
    ensures Distinct(Remove(s, x))
  {
    if s != [] {
      RemoveKeepsDistinct(s[1..], x);
      var rest := Remove(s[1..], x);
      assert s[0] !in rest;
      assert forall i :: 0 < i < |[s[0]] + rest| ==> ([s[0]] + rest)[i] == rest[i - 1];
    }
  }

  lemma {:induction false} RemoveAbsent(s: seq<string>, x: string)
    requires x !in s
    ensures Remove(s, x) == s
  {
    if s != [] {
      RemoveAbsent(s[1..], x);
    }
  }

  lemma {:induction false} RemoveConcat(a: seq<string>, b: seq<string>, x: string)
    ensures Remove(a + b, x) == Remove(a, x) + Remove(b, x)
  {
    if a == [] {
      assert a + b == b;
    } else {
      ConcatTail(a, b);
      RemoveConcat(a[1..], b, x);
      ConsConcat(a[0], Remove(a[1..], x), Remove(b, x));
    }
  }

  function RemoveAll(s: seq<string>, xs: seq<string>): seq<string>
    decreases |xs|
  {
    if xs == [] then s else RemoveAll(Remove(s, xs[0]), xs[1..])
  }

  lemma {:induction false} RemoveAllMembers(s: seq<string>, xs: seq<string>)
    ensures forall y :: y in RemoveAll(s, xs) <==> y in s && y !in xs
    decreases |xs|
  {
    if xs != [] {
      RemoveAllMembers(Remove(s, xs[0]), xs[1..]);
    }
  }

  lemma {:induction false} RemoveAllKeepsDistinct(s: seq<string>, xs: seq<string>)
    requires Distinct(s)
    ensures Distinct(RemoveAll(s, xs))
    decreases |xs|
  {
    if xs != [] {
      RemoveKeepsDistinct(s, xs[0]);
      RemoveAllKeepsDistinct(Remove(s, xs[0]), xs[1..]);
    }
  }

  /** `list_range`: the members from `start`, at most `limit` of them. */
  function Slice(members: seq<string>, start: nat, limit: Option<nat>): seq<string> {
    var rest := if start <= |members| then members[start..] else [];
    match limit
    case Some(n) => if n < |rest| then rest[..n] else rest
    case None => rest
  }

  /** What one backend holds, as a value: the specification of `Store`. */
  datatype State<!K(==), V> = State(scalars: map<K, Entry<V>>, lists: map<K, Entry<seq<string>>>, now: int) {

    function Get(key: K): Option<V> {
      if key in scalars && scalars[key].Live(now) then Some(scalars[key].value) else None
    }

    function Put(key: K, value: V, ttl: Option<nat>): State<K, V> {
      this.(scalars := scalars[key := Entry(value, Deadline(now, ttl))])
    }

    /** Deleting drops the scalar and the list kept under the key. */
    function Without(key: K): State<K, V> {
      this.(scalars := scalars - {key}, lists := lists - {key})
    }

    function Occupied(key: K, value: V, ttl: Option<nat>): State<K, V> {
      if Get(key).None? then Put(key, value, ttl) else this
    }

    /** An expired list has no members. */
    function Members(key: K): seq<string> {
      if key in lists && lists[key].Live(now) then lists[key].value else []
    }

    /** A push without a time to live leaves the expiry of a live list as it is. */
    function Pushed(key: K, member: string, ttl: Option<nat>): State<K, V> {
      var kept := if key in lists && lists[key].Live(now) then lists[key].expireAt else None;
      var members := if member in Members(key) then Members(key) else Members(key) + [member];
      this.(lists := lists[key := Entry(members, if ttl.Some? then Deadline(now, ttl) else kept)])
    }

    function Pulled(key: K, member: string): State<K, V> {
      if key in lists then this.(lists := lists[key := Entry(Remove(Members(key), member), lists[key].expireAt)]) else this
    }

    /** A backend may drop an expired entry whenever it likes, and then drops the list under its key too. */
    function Evicted(key: K): State<K, V> {
      if key in scalars && !scalars[key].Live(now) then Without(key) else this
    }

    function Later(d: nat): State<K, V> {
      this.(now := now + d)
    }

    ghost predicate AllLive() {
      forall k :: k in scalars ==> scalars[k].Live(now)
    }
  }

  /** A pushed member is listed, once, for the given time, or as long as the list already had. */
  lemma PushedLasts<K, V>(st: State<K, V>, key: K, member: string, ttl: Option<nat>, ms: nat)
    ensures var members := st.Members(key) + (if member in st.Members(key) then [] else [member]);
            var live := key in st.lists && st.lists[key].Live(st.now);
            st.Pushed(key, member, ttl).Later(ms).Members(key) ==
              if ttl.Some? then (if ms < ttl.value then members else [])
              else if live && !st.lists[key].Live(st.now + ms) then [] else members
  {
    assert st.Members(key) + [] == st.Members(key);
  }

  /** A page holds the members from `start`, as many as there are and are asked for. */
  lemma SliceExactly(members: seq<string>, start: nat, limit: Option<nat>)
    ensures var page := Slice(members, start, limit);
            var left := if start <= |members| then |members| - start else 0;
            && |page| == (if limit.Some? && limit.value < left then limit.value else left)
            && forall i :: 0 <= i < |page| ==> page[i] == members[start + i]
  {
  }

  /** A storage backend: one object, updated in place by every call. */
  class Store<!K(==), V> {
    var scalars: map<K, Entry<V>>
    var lists: map<K, Entry<seq<string>>>
    var now: int

    function View(): State<K, V>
      reads this
    {
      State(scalars, lists, now)
    }

    constructor (start: int)
      ensures View() == State(map[], map[], start)
    {
      scalars, lists, now := map[], map[], start;
    }

    method Get(key: K) returns (r: Option<V>)
      ensures r == View().Get(key)
    {
      if key in scalars && scalars[key].Live(now) {
        return Some(scalars[key].value);
      }
      return None;
    }

    method Set(key: K, value: V, ttl: Option<nat>)
      modifies this
      ensures View() == old(View()).Put(key, value, ttl)
    {
      scalars := scalars[key := Entry(value, Deadline(now, ttl))];
    }

    method Delete(key: K)
      modifies this
      ensures View() == old(View()).Without(key)
    {
      scalars, lists := scalars - {key}, lists - {key};
    }

    method SetIfAbsent(key: K, value: V, ttl: Option<nat>) returns (inserted: bool)
      modifies this
      ensures inserted == old(View()).Get(key).None?
      ensures View() == old(View()).Occupied(key, value, ttl)
    {
      var existing := Get(key);
      if existing.Some? {
        return false;
      }
      Set(key, value, ttl);
      return true;
    }

    /** Returns how many members the list then has. */
    method ListPushUnique(key: K, member: string, ttl: Option<nat>) returns (len: nat)
      modifies this
      ensures View() == old(View()).Pushed(key, member, ttl)
      ensures len == |old(View()).Members(key)| + if member in old(View()).Members(key) then 0 else 1
    {
      var entry := Entry([], None);
      if key in lists && lists[key].Live(now) {
        entry := lists[key];
      }
      if member !in entry.value {
        entry := entry.(value := entry.value + [member]);
      }
      if ttl.Some? {
        entry := entry.(expireAt := Deadline(now, ttl));
      }
      lists := lists[key := entry];
      len := |entry.value|;
    }

    /** Returns whether the member was there. */
    method ListRemove(key: K, member: string) returns (removed: bool)
      modifies this
      ensures View() == old(View()).Pulled(key, member)
      ensures removed == (member in old(View()).Members(key))
    {
      removed := false;
      if key in lists {
        var live := if lists[key].Live(now) then lists[key].value else [];
        removed := member in live;
        lists := lists[key := Entry(Remove(live, member), lists[key].expireAt)];
      }
    }

    method ListRange(key: K, start: nat, limit: Option<nat>) returns (members: seq<string>)
      ensures members == Slice(View().Members(key), start, limit)
      ensures start == 0 && limit.None? ==> members == View().Members(key)
    {
      members := if key in lists && lists[key].Live(now) then lists[key].value else [];
      members := Slice(members, start, limit);
    }
  }

  /** `compare_and_swap` (storage.rs:145-160): `None` asks for an absent or expired key. */
  method CompareAndSwap<K, V(==)>(store: Store<K, V>, key: K, expected: Option<V>, value: V, ttl: Option<nat>)
    returns (swapped: bool)
    modifies store
    ensures swapped == (old(store.View()).Get(key) == expected)
    ensures store.View() == if swapped then old(store.View()).Put(key, value, ttl) else old(store.View())
  {
    var current := store.Get(key);
    if current != expected {
      return false;
    }
    store.Set(key, value, ttl);
    return true;
  }
}
