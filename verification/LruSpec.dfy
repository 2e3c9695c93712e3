/** What src/cache/lru_cache.h does, on the recency sequence: most recently used entry first. */
module LruSpec {
  import opened Wrappers

  /** Times are ticks of the steady clock; an expiry of 0 stands for the default time point, never. */
  const SECOND: nat := 1_000_000_000

  datatype Entry<K, V> = Entry(key: K, value: V, expire: nat) {
    predicate Expired(now: nat) {
      expire != 0 && now > expire
    }
  }

  function ExpireAt(now: nat, ttlSeconds: int): nat {
    if ttlSeconds > 0 then now + ttlSeconds * SECOND else 0
  }

  function Lookup<K(==), V>(s: seq<Entry<K, V>>, key: K): Option<Entry<K, V>> {
    if s == [] then None else if s[0].key == key then Some(s[0]) else Lookup(s[1..], key)
  }

  function Without<K(==), V>(s: seq<Entry<K, V>>, key: K): seq<Entry<K, V>> {
    if s == [] then [] else if s[0].key == key then s[1..] else [s[0]] + Without(s[1..], key)
  }

  predicate AnyExpired<K, V>(s: seq<Entry<K, V>>, now: nat) {
    exists i :: 0 <= i < |s| && s[i].Expired(now)
  }

  function WithoutOldestExpired<K, V>(s: seq<Entry<K, V>>, now: nat): seq<Entry<K, V>>
    requires AnyExpired(s, now)
  {
    if AnyExpired(s[1..], now) then [s[0]] + WithoutOldestExpired(s[1..], now) else s[1..]
  }

  function EvictOne<K, V>(s: seq<Entry<K, V>>, now: nat): seq<Entry<K, V>> {
    if s == [] then []
    else if AnyExpired(s, now) then WithoutOldestExpired(s, now)
    else s[..|s| - 1]
  }

  function Unexpired<K, V>(s: seq<Entry<K, V>>, now: nat): seq<Entry<K, V>> {
    if s == [] then []
    else if s[0].Expired(now) then Unexpired(s[1..], now)
    else [s[0]] + Unexpired(s[1..], now)
  }

  // ----- The operations -----

  function Hit<K(==), V>(s: seq<Entry<K, V>>, key: K, now: nat): Option<V> {
    match Lookup(s, key)
    case None => None
    case Some(e) => if e.Expired(now) then None else Some(e.value)
  }

  function AfterGet<K(==), V>(s: seq<Entry<K, V>>, key: K, now: nat): seq<Entry<K, V>> {
    match Lookup(s, key)
    case None => s
    case Some(e) => if e.Expired(now) then Without(s, key) else [e] + Without(s, key)
  }

  function AfterPut<K(==), V>(s: seq<Entry<K, V>>, capacity: nat, key: K, value: V, ttl: int, now: nat):
    seq<Entry<K, V>>
  {
    var e := Entry(key, value, ExpireAt(now, ttl));
    if Lookup(s, key).Some? then [e] + Without(s, key)
    else if |s| >= capacity then [e] + EvictOne(s, now)
    else [e] + s
  }

  ghost predicate Distinct<K, V>(s: seq<Entry<K, V>>) {
    forall i, j :: 0 <= i < j < |s| ==> s[i].key != s[j].key
  }

  // ----- Positions -----

  function RemoveAt<T>(s: seq<T>, i: nat): seq<T>
    requires i < |s|
  {
    s[..i] + s[i + 1..]
  }

  lemma {:induction false} LookupAt<K, V>(s: seq<Entry<K, V>>, i: nat)
    requires Distinct(s) && i < |s|
    ensures Lookup(s, s[i].key) == Some(s[i])
    ensures Without(s, s[i].key) == RemoveAt(s, i)
  {
    if i > 0 {
      LookupAt(s[1..], i - 1);
      assert s[1..][i - 1] == s[i];
      assert RemoveAt(s, i) == [s[0]] + RemoveAt(s[1..], i - 1);
    }
  }

  lemma {:induction false} LookupMissing<K, V>(s: seq<Entry<K, V>>, key: K)
    requires forall e :: e in s ==> e.key != key
    ensures Lookup(s, key) == None
    ensures Without(s, key) == s
  {
    if s != [] { LookupMissing(s[1..], key); }
  }

  lemma {:induction false} OldestExpiredAt<K, V>(s: seq<Entry<K, V>>, i: nat, now: nat)
    requires i < |s| && s[i].Expired(now)
    requires forall j :: i < j < |s| ==> !s[j].Expired(now)
    ensures AnyExpired(s, now)
    ensures WithoutOldestExpired(s, now) == RemoveAt(s, i)
  {
    if i > 0 {
      assert s[1..][i - 1] == s[i];
      OldestExpiredAt(s[1..], i - 1, now);
      assert RemoveAt(s, i) == [s[0]] + RemoveAt(s[1..], i - 1);
    } else {
      assert !AnyExpired(s[1..], now);
    }
  }

  lemma {:induction false} UnexpiredConcat<K, V>(a: seq<Entry<K, V>>, b: seq<Entry<K, V>>, now: nat)
    ensures Unexpired(a + b, now) == Unexpired(a, now) + Unexpired(b, now)
  {
    if a == [] {
      assert a + b == b;
    } else {
      assert (a + b)[1..] == a[1..] + b;
      UnexpiredConcat(a[1..], b, now);
    }
  }
}
