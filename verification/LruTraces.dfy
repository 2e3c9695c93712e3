/** Whole-trace properties of the cache: a larger cache includes a smaller one at every point,
    and a key that stays in use is not evicted. */
module LruTraces {
  import opened Wrappers
  import opened LruSpec

  datatype Op<K, V> =
    | Get(key: K)
    | Put(key: K, value: V, ttl: int)
    | Delete(key: K)
    | Clear
    | EvictExpired

  /** An operation and the clock reading it makes. */
  datatype Event<K, V> = Event(op: Op<K, V>, now: nat)

  function Apply<K(==), V>(s: seq<Entry<K, V>>, capacity: nat, event: Event<K, V>): seq<Entry<K, V>> {
    match event.op
    case Get(key) => AfterGet(s, key, event.now)
    case Put(key, value, ttl) => AfterPut(s, capacity, key, value, ttl, event.now)
    case Delete(key) => Without(s, key)
    case Clear => []
    case EvictExpired => Unexpired(s, event.now)
  }

  function Answer<K(==), V>(s: seq<Entry<K, V>>, event: Event<K, V>): Option<V> {
    if event.op.Get? then Hit(s, event.op.key, event.now) else None
  }

  function Run<K(==), V>(capacity: nat, trace: seq<Event<K, V>>): seq<Entry<K, V>> {
    if trace == [] then [] else Apply(Run(capacity, trace[..|trace| - 1]), capacity, trace[|trace| - 1])
  }

  // ----- Reachable states -----

  lemma DistinctCons<K, V>(e: Entry<K, V>, s: seq<Entry<K, V>>)
    requires Distinct(s) && forall x :: x in s ==> x.key != e.key
    ensures Distinct([e] + s)
  {
    forall i, j | 0 <= i < j < |[e] + s|
      ensures ([e] + s)[i].key != ([e] + s)[j].key
    {
      if i == 0 { assert s[j - 1] in s; }
    }
  }

  lemma DistinctHead<K, V>(s: seq<Entry<K, V>>)
    requires Distinct(s) && s != []
    ensures Distinct(s[1..]) && s == [s[0]] + s[1..]
    ensures forall x :: x in s[1..] ==> x in s && x.key != s[0].key
  {
    forall x | x in s[1..]
      ensures x.key != s[0].key
    {
      var i :| 0 <= i < |s[1..]| && s[1..][i] == x;
      assert s[i + 1] == x;
    }
  }

  lemma {:induction false} WithoutKeys<K, V>(s: seq<Entry<K, V>>, key: K)
    requires Distinct(s)
    ensures Distinct(Without(s, key))
    ensures forall e :: e in Without(s, key) ==> e in s && e.key != key
    ensures forall e :: e in s && e.key != key ==> e in Without(s, key)
    ensures |Without(s, key)| == |s| - if Lookup(s, key).Some? then 1 else 0
  {
    if s != [] {
      if s[0].key == key {
        DistinctHead(s);
      } else {
        WithoutKeys(s[1..], key);
        DistinctHead(s);
        DistinctCons(s[0], Without(s[1..], key));
      }
    }
  }

  lemma {:induction false} LookupMember<K, V>(s: seq<Entry<K, V>>, key: K)
    ensures Lookup(s, key).Some? ==> Lookup(s, key).value in s && Lookup(s, key).value.key == key
    ensures Lookup(s, key).None? ==> forall e :: e in s ==> e.key != key
  {
    if s != [] && s[0].key != key { LookupMember(s[1..], key); }
  }

  lemma {:induction false} OldestExpiredKeys<K, V>(s: seq<Entry<K, V>>, now: nat)
    requires Distinct(s) && AnyExpired(s, now)
    ensures Distinct(WithoutOldestExpired(s, now)) && |WithoutOldestExpired(s, now)| == |s| - 1
    ensures forall e :: e in WithoutOldestExpired(s, now) ==> e in s
  {
    if AnyExpired(s[1..], now) {
      OldestExpiredKeys(s[1..], now);
      hide AnyExpired, WithoutOldestExpired;
      DistinctCons(s[0], WithoutOldestExpired(s[1..], now));
    }
  }

  lemma EvictKeys<K, V>(s: seq<Entry<K, V>>, now: nat)
    requires Distinct(s)
    ensures Distinct(EvictOne(s, now))
    ensures s != [] ==> |EvictOne(s, now)| == |s| - 1
    ensures forall e :: e in EvictOne(s, now) ==> e in s
  {
    if AnyExpired(s, now) { OldestExpiredKeys(s, now); }
  }

  lemma {:induction false} UnexpiredKeys<K, V>(s: seq<Entry<K, V>>, now: nat)
    requires Distinct(s)
    ensures Distinct(Unexpired(s, now)) && |Unexpired(s, now)| <= |s|
    ensures forall e :: e in Unexpired(s, now) ==> e in s && !e.Expired(now)
  {
    if s != [] {
      UnexpiredKeys(s[1..], now);
      DistinctHead(s);
      if !s[0].Expired(now) { DistinctCons(s[0], Unexpired(s[1..], now)); }
    }
  }

  lemma ApplyKeepsKeys<K, V>(s: seq<Entry<K, V>>, capacity: nat, event: Event<K, V>)
    requires 1 <= capacity && Distinct(s) && |s| <= capacity
    ensures Distinct(Apply(s, capacity, event)) && |Apply(s, capacity, event)| <= capacity
  {
    match event.op
    case Get(key) =>
      LookupMember(s, key);
      WithoutKeys(s, key);
      if Lookup(s, key).Some? { DistinctCons(Lookup(s, key).value, Without(s, key)); }
    case Put(key, value, ttl) =>
      var e := Entry(key, value, ExpireAt(event.now, ttl));
      LookupMember(s, key);
      WithoutKeys(s, key);
      EvictKeys(s, event.now);
      if Lookup(s, key).Some? {
        DistinctCons(e, Without(s, key));
      } else {
        DistinctCons(e, EvictOne(s, event.now));
        DistinctCons(e, s);
      }
    case Delete(key) => WithoutKeys(s, key);
    case Clear =>
    case EvictExpired => UnexpiredKeys(s, event.now);
  }

  /** In every reachable state the keys are distinct and the capacity is respected. */
  lemma {:induction false} RunKeepsKeys<K, V>(capacity: nat, trace: seq<Event<K, V>>)
    requires 1 <= capacity
    ensures Distinct(Run(capacity, trace)) && |Run(capacity, trace)| <= capacity
  {
    if trace != [] {
      RunKeepsKeys(capacity, trace[..|trace| - 1]);
      ApplyKeepsKeys(Run(capacity, trace[..|trace| - 1]), capacity, trace[|trace| - 1]);
    }
  }

  /** An eviction takes the least recently used expired entry, or the least recently used when none is expired. */
  lemma EvictionChoice<K, V>(s: seq<Entry<K, V>>, now: nat) returns (victim: nat)
    requires s != []
    ensures victim < |s| && EvictOne(s, now) == RemoveAt(s, victim)
    ensures forall j :: victim < j < |s| ==> !s[j].Expired(now)
    ensures !s[victim].Expired(now) ==> victim == |s| - 1 && !AnyExpired(s, now)
  {
    victim := |s| - 1;
    while victim > 0 && !s[victim].Expired(now)
      invariant victim < |s|
      invariant forall j :: victim < j < |s| ==> !s[j].Expired(now)
    {
      victim := victim - 1;
    }
    if s[victim].Expired(now) {
      OldestExpiredAt(s, victim, now);
    } else {
      victim := |s| - 1;
    }
  }

  // ----- Subsequences -----

  predicate Sub<T(==)>(a: seq<T>, b: seq<T>) {
    if a == [] then true
    else if b == [] then false
    else if a[0] == b[0] then Sub(a[1..], b[1..])
    else Sub(a, b[1..])
  }

  lemma {:induction false} SubShorter<T>(a: seq<T>, b: seq<T>)
    requires Sub(a, b)
    ensures |a| <= |b| && forall x :: x in a ==> x in b
    ensures a != [] ==> Sub(a[1..], b)
  {
    if a != [] {
      if a[0] == b[0] {
        SubShorter(a[1..], b[1..]);
        SubLonger(b[0], a[1..], b[1..]);
        assert b == [b[0]] + b[1..];
      } else {
        SubShorter(a, b[1..]);
        SubLonger(b[0], a[1..], b[1..]);
        assert b == [b[0]] + b[1..];
      }
      assert a == [a[0]] + a[1..];
    }
  }

  lemma SubLonger<T>(x: T, a: seq<T>, b: seq<T>)
    requires Sub(a, b)
    ensures Sub(a, [x] + b)
    decreases |a| + |b|, 1
  {
    assert ([x] + b)[1..] == b;
    if a != [] && a[0] == x {
      SubTail(a, b);
    }
  }

  lemma SubTail<T>(a: seq<T>, b: seq<T>)
    requires Sub(a, b) && a != []
    ensures Sub(a[1..], b)
    decreases |a| + |b|, 0
  {
    assert b == [b[0]] + b[1..];
    if a[0] == b[0] {
      SubLonger(b[0], a[1..], b[1..]);
    } else {
      SubTail(a, b[1..]);
      SubLonger(b[0], a[1..], b[1..]);
    }
  }

  lemma SubBoth<T>(x: T, a: seq<T>, b: seq<T>)
    requires Sub(a, b)
    ensures Sub([x] + a, [x] + b)
  {
    assert ([x] + a)[1..] == a && ([x] + b)[1..] == b;
  }

  lemma {:induction false} SubWithout<K, V>(a: seq<Entry<K, V>>, b: seq<Entry<K, V>>, key: K)
    requires Sub(a, b) && Distinct(b)
    ensures Sub(Without(a, key), Without(b, key))
    ensures Lookup(a, key).Some? ==> Lookup(b, key) == Lookup(a, key)
  {
    if a == [] {
    } else if a[0] == b[0] {
      SubWithout(a[1..], b[1..], key);
      SubBoth(a[0], Without(a[1..], key), Without(b[1..], key));
    } else {
      SubWithout(a, b[1..], key);
      SubShorter(a, b[1..]);
      if b[0].key == key {
        assert forall e :: e in b[1..] ==> e.key != key;
        LookupMissing(a, key);
      } else {
        SubLonger(b[0], Without(a, key), Without(b[1..], key));
      }
    }
  }

  lemma {:induction false} SubUnexpired<K, V>(a: seq<Entry<K, V>>, b: seq<Entry<K, V>>, now: nat)
    requires Sub(a, b)
    ensures Sub(Unexpired(a, now), Unexpired(b, now))
    ensures |Unexpired(b, now)| - |Unexpired(a, now)| <= |b| - |a|
  {
    if a == [] {
      UnexpiredShrinks(b, now);
    } else if a[0] == b[0] {
      SubUnexpired(a[1..], b[1..], now);
      SubBoth(a[0], Unexpired(a[1..], now), Unexpired(b[1..], now));
    } else {
      SubUnexpired(a, b[1..], now);
      SubLonger(b[0], Unexpired(a, now), Unexpired(b[1..], now));
    }
  }

  lemma {:induction false} UnexpiredShrinks<K, V>(s: seq<Entry<K, V>>, now: nat)
    ensures |Unexpired(s, now)| <= |s|
  {
    if s != [] { UnexpiredShrinks(s[1..], now); }
  }

  // ----- Evictions on both sides -----

  lemma SubExpired<K, V>(a: seq<Entry<K, V>>, b: seq<Entry<K, V>>, now: nat)
    requires Sub(a, b) && AnyExpired(a, now)
    ensures AnyExpired(b, now)
  {
    SubShorter(a, b);
    var i :| 0 <= i < |a| && a[i].Expired(now);
    assert a[i] in b;
  }

  lemma {:induction false} SubEvictExpiredRight<K, V>(a: seq<Entry<K, V>>, b: seq<Entry<K, V>>, now: nat)
    requires Sub(a, b) && !AnyExpired(a, now) && AnyExpired(b, now)
    ensures Sub(a, WithoutOldestExpired(b, now))
  {
    if a != [] {
      if AnyExpired(b[1..], now) {
        if a[0] == b[0] {
          assert forall i :: 0 <= i < |a[1..]| ==> a[1..][i] == a[i + 1];
          SubEvictExpiredRight(a[1..], b[1..], now);
          SubBoth(a[0], a[1..], WithoutOldestExpired(b[1..], now));
          assert a == [a[0]] + a[1..];
        } else {
          SubEvictExpiredRight(a, b[1..], now);
          SubLonger(b[0], a, WithoutOldestExpired(b[1..], now));
        }
      } else {
        assert b[0].Expired(now) && !a[0].Expired(now);
      }
    }
  }

  lemma {:induction false} SubEvictExpired<K, V>(a: seq<Entry<K, V>>, b: seq<Entry<K, V>>, now: nat)
    requires Sub(a, b) && AnyExpired(a, now) && AnyExpired(b, now)
    ensures Sub(WithoutOldestExpired(a, now), WithoutOldestExpired(b, now))
  {
    if a[0] == b[0] {
      if AnyExpired(a[1..], now) {
        SubExpired(a[1..], b[1..], now);
        SubEvictExpired(a[1..], b[1..], now);
        SubBoth(a[0], WithoutOldestExpired(a[1..], now), WithoutOldestExpired(b[1..], now));
      } else if AnyExpired(b[1..], now) {
        SubEvictExpiredRight(a[1..], b[1..], now);
        SubLonger(b[0], a[1..], WithoutOldestExpired(b[1..], now));
      }
    } else {
      SubExpired(a, b[1..], now);
      SubEvictExpired(a, b[1..], now);
      SubLonger(b[0], WithoutOldestExpired(a, now), WithoutOldestExpired(b[1..], now));
    }
  }

  lemma {:induction false} SubDropLast<T>(a: seq<T>, b: seq<T>)
    requires Sub(a, b) && a != []
    ensures Sub(a[..|a| - 1], b[..|b| - 1])
  {
    SubShorter(a, b);
    if |a| > 1 {
      assert a[..|a| - 1][1..] == a[1..][..|a| - 2] && b[..|b| - 1][1..] == b[1..][..|b| - 2];
      if a[0] == b[0] {
        SubDropLast(a[1..], b[1..]);
      } else {
        SubShorter(a, b[1..]);
        SubDropLast(a, b[1..]);
      }
    }
  }

  lemma {:induction false} SubTake<T>(a: seq<T>, b: seq<T>)
    requires Sub(a, b) && a != []
    ensures Sub(a[..|a| - 1], b)
  {
    if |a| > 1 {
      assert a[..|a| - 1][1..] == a[1..][..|a| - 2];
      if a[0] == b[0] { SubTake(a[1..], b[1..]); } else { SubTake(a, b[1..]); }
    }
  }

  lemma {:induction false} SubEvictLeft<K, V>(a: seq<Entry<K, V>>, b: seq<Entry<K, V>>, now: nat)
    requires Sub(a, b)
    ensures Sub(EvictOne(a, now), b)
  {
    if a == [] {
    } else if !AnyExpired(a, now) {
      SubTake(a, b);
    } else if a[0] == b[0] {
      if AnyExpired(a[1..], now) {
        SubEvictLeft(a[1..], b[1..], now);
        SubBoth(a[0], WithoutOldestExpired(a[1..], now), b[1..]);
        assert b == [b[0]] + b[1..];
      } else {
        SubShorter(a, b);
      }
    } else {
      SubEvictLeft(a, b[1..], now);
      SubLonger(b[0], EvictOne(a, now), b[1..]);
      assert b == [b[0]] + b[1..];
    }
  }

  lemma SubEvict<K, V>(a: seq<Entry<K, V>>, b: seq<Entry<K, V>>, now: nat)
    requires Sub(a, b) && a != []
    ensures Sub(EvictOne(a, now), EvictOne(b, now))
  {
    if AnyExpired(a, now) {
      SubExpired(a, b, now);
      SubEvictExpired(a, b, now);
    } else if AnyExpired(b, now) {
      SubEvictExpiredRight(a, b, now);
      SubTake(a, WithoutOldestExpired(b, now));
    } else {
      SubDropLast(a, b);
    }
  }

  // ----- Stack inclusion -----

  /** The smaller cache's entries, in order, are among the larger's, and the larger has as much free room. */
  ghost predicate Included<K, V>(a: seq<Entry<K, V>>, c: nat, b: seq<Entry<K, V>>, d: nat) {
    && Distinct(a) && |a| <= c
    && Distinct(b) && |b| <= d
    && Sub(a, b)
    && c - |a| <= d - |b|
  }

  lemma IncludedAfterPut<K, V>(a: seq<Entry<K, V>>, c: nat, b: seq<Entry<K, V>>, d: nat, event: Event<K, V>)
    requires 1 <= c <= d && Included(a, c, b, d) && event.op.Put?
    ensures Sub(Apply(a, c, event), Apply(b, d, event))
    ensures c - |Apply(a, c, event)| <= d - |Apply(b, d, event)|
  {
    var Put(key, value, ttl) := event.op;
    var e := Entry(key, value, ExpireAt(event.now, ttl));
    SubWithout(a, b, key);
    WithoutKeys(a, key);
    WithoutKeys(b, key);
    EvictKeys(a, event.now);
    EvictKeys(b, event.now);
    if Lookup(a, key).Some? {
      SubBoth(e, Without(a, key), Without(b, key));
    } else {
      LookupMember(a, key);
      LookupMissing(a, key);
      if Lookup(b, key).Some? {
        SubEvictLeft(a, Without(b, key), event.now);
        SubBoth(e, EvictOne(a, event.now), Without(b, key));
        SubBoth(e, a, Without(b, key));
      } else if |b| >= d {
        SubEvict(a, b, event.now);
        SubBoth(e, EvictOne(a, event.now), EvictOne(b, event.now));
      } else {
        SubEvictLeft(a, b, event.now);
        SubBoth(e, EvictOne(a, event.now), b);
        SubBoth(e, a, b);
      }
    }
  }

  lemma IncludedAfter<K, V>(a: seq<Entry<K, V>>, c: nat, b: seq<Entry<K, V>>, d: nat, event: Event<K, V>)
    requires 1 <= c <= d && Included(a, c, b, d)
    ensures Included(Apply(a, c, event), c, Apply(b, d, event), d)
    ensures Answer(a, event).Some? ==> Answer(b, event) == Answer(a, event)
  {
    ApplyKeepsKeys(a, c, event);
    ApplyKeepsKeys(b, d, event);
    match event.op
    case Get(key) =>
      SubWithout(a, b, key);
      WithoutKeys(a, key);
      WithoutKeys(b, key);
      match Lookup(a, key) {
        case Some(e) => SubBoth(e, Without(a, key), Without(b, key));
        case None =>
          LookupMember(a, key);
          LookupMissing(a, key);
          if Lookup(b, key).Some? { SubLonger(Lookup(b, key).value, a, Without(b, key)); }
      }
    case Put(_, _, _) => IncludedAfterPut(a, c, b, d, event);
    case Delete(key) => SubWithout(a, b, key); WithoutKeys(a, key); WithoutKeys(b, key);
    case Clear =>
    case EvictExpired => SubUnexpired(a, b, event.now);
  }

  /** The same trace under the same clock: at every point the smaller cache is contained in the larger. */
  lemma {:induction false} StackInclusion<K, V>(c: nat, d: nat, trace: seq<Event<K, V>>)
    requires 1 <= c <= d
    ensures Included(Run(c, trace), c, Run(d, trace), d)
  {
    if trace != [] {
      var before, event := trace[..|trace| - 1], trace[|trace| - 1];
      StackInclusion(c, d, before);
      IncludedAfter(Run(c, before), c, Run(d, before), d, event);
    }
  }

  /** Hence every hit of the smaller cache is the same hit of the larger one. */
  lemma SmallHitsAreLargeHits<K, V>(c: nat, d: nat, trace: seq<Event<K, V>>, key: K, now: nat)
    requires 1 <= c <= d
    requires Hit(Run(c, trace), key, now).Some?
    ensures Hit(Run(d, trace), key, now) == Hit(Run(c, trace), key, now)
  {
    StackInclusion(c, d, trace);
    IncludedAfter(Run(c, trace), c, Run(d, trace), d, Event(Get(key), now));
  }

  // ----- Survival -----

  /** The keys more recent than the given one. */
  function Before<K(==), V>(s: seq<Entry<K, V>>, key: K): set<K> {
    if s == [] || s[0].key == key then {} else {s[0].key} + Before(s[1..], key)
  }

  ghost predicate Harmless<K, V>(event: Event<K, V>, kept: Entry<K, V>) {
    && !event.op.Clear?
    && (event.op.Delete? || event.op.Put? ==> event.op.key != kept.key)
    && !kept.Expired(event.now)
  }

  function Touched<K(==), V>(trace: seq<Event<K, V>>): set<K> {
    set i | 0 <= i < |trace| && (trace[i].op.Get? || trace[i].op.Put?) :: trace[i].op.key
  }

  function RunFrom<K(==), V>(s: seq<Entry<K, V>>, capacity: nat, trace: seq<Event<K, V>>): seq<Entry<K, V>> {
    if trace == [] then s else Apply(RunFrom(s, capacity, trace[..|trace| - 1]), capacity, trace[|trace| - 1])
  }

  lemma {:induction false} BeforeWithout<K, V>(s: seq<Entry<K, V>>, key: K, other: K)
    requires other != key
    ensures Lookup(Without(s, other), key) == Lookup(s, key)
    ensures Before(Without(s, other), key) <= Before(s, key)
  {
    if s != [] && s[0].key != other { BeforeWithout(s[1..], key, other); }
  }

  lemma {:induction false} BeforeUnexpired<K, V>(s: seq<Entry<K, V>>, kept: Entry<K, V>, now: nat)
    requires Lookup(s, kept.key) == Some(kept) && !kept.Expired(now)
    ensures Lookup(Unexpired(s, now), kept.key) == Some(kept)
    ensures Before(Unexpired(s, now), kept.key) <= Before(s, kept.key)
  {
    if s[0].key != kept.key { BeforeUnexpired(s[1..], kept, now); }
  }

  lemma {:induction false} BeforeEvictExpired<K, V>(s: seq<Entry<K, V>>, kept: Entry<K, V>, now: nat)
    requires Lookup(s, kept.key) == Some(kept) && !kept.Expired(now) && AnyExpired(s, now)
    ensures Lookup(WithoutOldestExpired(s, now), kept.key) == Some(kept)
    ensures Before(WithoutOldestExpired(s, now), kept.key) <= Before(s, kept.key)
  {
    if s[0].key != kept.key {
      if AnyExpired(s[1..], now) { BeforeEvictExpired(s[1..], kept, now); }
    } else {
      assert !s[0].Expired(now);
      var i :| 0 <= i < |s| && s[i].Expired(now);
      assert s[1..][i - 1].Expired(now);
    }
  }

  /** Dropping the last entry spares the key unless all the others are more recent. */
  lemma {:induction false} BeforeDropLast<K, V>(s: seq<Entry<K, V>>, kept: Entry<K, V>)
    requires Distinct(s) && Lookup(s, kept.key) == Some(kept)
    requires |Before(s, kept.key)| < |s| - 1
    ensures Lookup(s[..|s| - 1], kept.key) == Some(kept)
    ensures Before(s[..|s| - 1], kept.key) <= Before(s, kept.key)
  {
    assert |s| > 1;
    if s[0].key != kept.key {
      BeforeAreKeys(s[1..], kept.key);
      assert s[0].key !in Before(s[1..], kept.key);
      assert |Before(s, kept.key)| == 1 + |Before(s[1..], kept.key)|;
      BeforeDropLast(s[1..], kept);
      assert s[..|s| - 1][1..] == s[1..][..|s| - 2];
    }
  }

  lemma {:induction false} BeforeAreKeys<K, V>(s: seq<Entry<K, V>>, key: K)
    ensures forall k :: k in Before(s, key) ==> k != key && exists e :: e in s && e.key == k
  {
    if s != [] && s[0].key != key {
      BeforeAreKeys(s[1..], key);
      assert s == [s[0]] + s[1..];
      assert s[0] in s;
    }
  }

  lemma ApplySpares<K, V>(s: seq<Entry<K, V>>, capacity: nat, event: Event<K, V>, kept: Entry<K, V>, touched: set<K>)
    requires Distinct(s) && 1 <= capacity && |s| <= capacity
    requires Lookup(s, kept.key) == Some(kept) && Harmless(event, kept)
    requires Before(s, kept.key) <= touched
    requires event.op.Put? ==> |touched + {event.op.key}| < capacity
    ensures Lookup(Apply(s, capacity, event), kept.key) == Some(kept)
    ensures Before(Apply(s, capacity, event), kept.key) <=
      touched + if event.op.Get? || event.op.Put? then {event.op.key} else {}
  {
    match event.op
    case Get(key) =>
      LookupMember(s, key);
      if key != kept.key { BeforeWithout(s, kept.key, key); }
    case Put(key, _, _) =>
      LookupMember(s, key);
      BeforeWithout(s, kept.key, key);
      if Lookup(s, key).None? && |s| >= capacity { EvictSpares(s, kept, event.now, touched, key); }
    case Delete(key) => BeforeWithout(s, kept.key, key);
    case EvictExpired => BeforeUnexpired(s, kept, event.now);
  }

  lemma EvictSpares<K, V>(s: seq<Entry<K, V>>, kept: Entry<K, V>, now: nat, touched: set<K>, key: K)
    requires Distinct(s) && Lookup(s, kept.key) == Some(kept) && !kept.Expired(now)
    requires Before(s, kept.key) <= touched
    requires Lookup(s, key) == None && |touched + {key}| < |s|
    ensures Lookup(EvictOne(s, now), kept.key) == Some(kept)
    ensures Before(EvictOne(s, now), kept.key) <= Before(s, kept.key)
  {
    if AnyExpired(s, now) {
      BeforeEvictExpired(s, kept, now);
    } else {
      BeforeAreKeys(s, kept.key);
      LookupMember(s, key);
      SubsetSize(Before(s, kept.key) + {key}, touched + {key});
      BeforeDropLast(s, kept);
    }
  }

  lemma {:induction false} SubsetSize<T>(a: set<T>, b: set<T>)
    requires a <= b
    ensures |a| <= |b|
  {
    if x :| x in a { SubsetSize(a - {x}, b - {x}); }
  }

  /** A key that was just used, is neither deleted nor overwritten and does not expire keeps its entry
      until at least `capacity` other keys have been touched. */
  lemma {:induction false} Survival<K, V>(s: seq<Entry<K, V>>, capacity: nat, trace: seq<Event<K, V>>)
    requires 1 <= capacity && Distinct(s) && |s| <= capacity
    requires s != [] && forall i :: 0 <= i < |trace| ==> Harmless(trace[i], s[0])
    requires |Touched(trace) - {s[0].key}| < capacity
    ensures Lookup(RunFrom(s, capacity, trace), s[0].key) == Some(s[0])
    ensures Before(RunFrom(s, capacity, trace), s[0].key) <= Touched(trace) - {s[0].key}
    ensures Distinct(RunFrom(s, capacity, trace)) && |RunFrom(s, capacity, trace)| <= capacity
  {
    SurvivalStart(s, capacity);
    hide Before, Lookup, Touched, Apply, Distinct;
    if trace != [] {
      var before, event, kept := trace[..|trace| - 1], trace[|trace| - 1], s[0];
      var others := Touched(before) - {kept.key};
      assert trace == before + [event];
      TouchedGrows(before, event);
      SubsetSize(others, Touched(trace) - {kept.key});
      Survival(s, capacity, before);
      var r := RunFrom(s, capacity, before);
      ApplyKeepsKeys(r, capacity, event);
      if event.op.Put? { SubsetSize(others + {event.op.key}, Touched(trace) - {kept.key}); }
      ApplySpares(r, capacity, event, kept, others);
      BeforeAreKeys(Apply(r, capacity, event), kept.key);
    }
  }

  lemma SurvivalStart<K, V>(s: seq<Entry<K, V>>, capacity: nat)
    requires s != []
    ensures RunFrom(s, capacity, []) == s && Lookup(s, s[0].key) == Some(s[0]) && Before(s, s[0].key) == {}
  {}

  lemma TouchedGrows<K, V>(before: seq<Event<K, V>>, event: Event<K, V>)
    ensures Touched(before + [event]) ==
      Touched(before) + if event.op.Get? || event.op.Put? then {event.op.key} else {}
  {
    var trace := before + [event];
    assert forall i :: 0 <= i < |before| ==> trace[i] == before[i];
    assert trace[|before|] == event;
    forall k
      ensures k in Touched(trace) <==> k in Touched(before) || ((event.op.Get? || event.op.Put?) && k == event.op.key)
    {
      if k in Touched(before) {
        var i :| 0 <= i < |before| && (before[i].op.Get? || before[i].op.Put?) && before[i].op.key == k;
        assert trace[i].op.key == k;
      }
    }
  }

  /** A use of a key: a Put, or a Get that hits. */
  predicate Uses<K(==), V>(s: seq<Entry<K, V>>, use: Event<K, V>, key: K) {
    (use.op.Put? && use.op.key == key) || (use.op.Get? && use.op.key == key && Answer(s, use).Some?)
  }

  /** The entry a use leaves at the front. */
  function Used<K(==), V>(s: seq<Entry<K, V>>, use: Event<K, V>, key: K): Entry<K, V>
    requires Uses(s, use, key)
  {
    if use.op.Put? then Entry(key, use.op.value, ExpireAt(use.now, use.op.ttl)) else Lookup(s, key).value
  }

  lemma {:induction false} RunInTwo<K, V>(capacity: nat, before: seq<Event<K, V>>, after: seq<Event<K, V>>)
    ensures Run(capacity, before + after) == RunFrom(Run(capacity, before), capacity, after)
  {
    hide Apply;
    if after == [] {
      assert before + after == before;
    } else {
      var rest, last := after[..|after| - 1], after[|after| - 1];
      assert before + after == (before + rest) + [last];
      assert ((before + rest) + [last])[..|before + rest|] == before + rest;
      RunInTwo(capacity, before, rest);
    }
  }

  lemma UsedIsFirst<K, V>(s: seq<Entry<K, V>>, capacity: nat, use: Event<K, V>, key: K)
    requires Uses(s, use, key)
    ensures Apply(s, capacity, use) != [] && Apply(s, capacity, use)[0] == Used(s, use, key)
    ensures Used(s, use, key).key == key
    ensures use.op.Get? ==> Answer(s, use) == Some(Used(s, use, key).value)
  {
    LookupMember(s, key);
  }

  /** In every trace, a key that was put or hit answers with that value as long as it is neither deleted,
      overwritten nor expired and fewer than `capacity` other keys have been touched since. */
  lemma UsedKeySurvives<K, V>(capacity: nat, before: seq<Event<K, V>>, use: Event<K, V>, after: seq<Event<K, V>>,
                              key: K, now: nat)
    requires 1 <= capacity && Uses(Run(capacity, before), use, key)
    requires var kept := Used(Run(capacity, before), use, key);
      !kept.Expired(now) && forall i :: 0 <= i < |after| ==> Harmless(after[i], kept)
    requires |Touched(after) - {key}| < capacity
    ensures Hit(Run(capacity, before + [use] + after), key, now) == Some(Used(Run(capacity, before), use, key).value)
  {
    var r, first := Run(capacity, before), before + [use];
    hide Run, RunFrom, Used, Touched, Harmless, Apply, Uses;
    UsedIsFirst(r, capacity, use, key);
    LastStep(capacity, before, use);
    RunKeepsKeys(capacity, first);
    Survival(Run(capacity, first), capacity, after);
    RunInTwo(capacity, first, after);
  }

  lemma LastStep<K, V>(capacity: nat, before: seq<Event<K, V>>, event: Event<K, V>)
    ensures Run(capacity, before + [event]) == Apply(Run(capacity, before), capacity, event)
  {
    assert (before + [event])[..|before|] == before;
  }
}
