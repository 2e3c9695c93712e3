/** The two-level cache of src/cache/cache_manager.cpp over the in-memory store of
    src/cache/redis_client.cpp, as a step function, and what holds of all its runs. */
module CacheSpec {
  import opened Wrappers
  import opened LruSpec
  import LruTraces

  /** The string part of InMemoryRedisClient. */
  datatype Store = Store(values: map<string, string>, expirations: map<string, nat>) {
    predicate Stale(key: string, now: nat) {
      key in expirations && now > expirations[key]
    }

    function AfterSet(key: string, value: string, ttl: int, now: nat): Store {
      Store(values[key := value], if ttl > 0 then expirations[key := now + ttl * SECOND] else expirations)
    }

    function AfterGet(key: string, now: nat): Store {
      if Stale(key, now) then AfterDel(key) else this
    }

    function Read(key: string, now: nat): Option<string> {
      if !Stale(key, now) && key in values then Some(values[key]) else None
    }

    function AfterDel(key: string): Store {
      Store(values - {key}, expirations - {key})
    }
  }

  datatype Config = Config(localTtl: int, redisTtl: int)

  datatype Stats = Stats(l1Hits: nat, l2Hits: nat, misses: nat)

  /** l2 is None when no store is connected. */
  datatype Manager = Manager(
    l1: seq<Entry<string, string>>,
    capacity: nat,
    l2: Option<Store>,
    config: Config,
    stats: Stats
  )

  datatype Request =
    | Get(key: string)
    | Set(key: string, value: string, ttl: int)
    | Delete(key: string)
    | Clear

  function TtlOr(ttl: int, default: int): int {
    if ttl > 0 then ttl else default
  }

  function GetAnswer(m: Manager, key: string, now: nat): Option<string> {
    match Hit(m.l1, key, now)
    case Some(value) => Some(value)
    case None => if m.l2.Some? then m.l2.value.Read(key, now) else None
  }

  function DoGet(m: Manager, key: string, now: nat): Manager {
    var l1 := AfterGet(m.l1, key, now);
    var s := m.stats;
    if Hit(m.l1, key, now).Some? then
      m.(l1 := l1, stats := s.(l1Hits := s.l1Hits + 1))
    else if m.l2.None? then
      m.(l1 := l1, stats := s.(misses := s.misses + 1))
    else
      var l2 := Some(m.l2.value.AfterGet(key, now));
      match m.l2.value.Read(key, now)
      case Some(value) =>
        m.(l1 := AfterPut(l1, m.capacity, key, value, m.config.localTtl, now), l2 := l2,
           stats := s.(l2Hits := s.l2Hits + 1))
      case None =>
        m.(l1 := l1, l2 := l2, stats := s.(misses := s.misses + 1))
  }

  function DoSet(m: Manager, key: string, value: string, ttl: int, now: nat): Manager {
    m.(l1 := AfterPut(m.l1, m.capacity, key, value, TtlOr(ttl, m.config.localTtl), now),
       l2 := if m.l2.None? then None else Some(m.l2.value.AfterSet(key, value, TtlOr(ttl, m.config.redisTtl), now)))
  }

  function DoDelete(m: Manager, key: string): Manager {
    m.(l1 := Without(m.l1, key), l2 := if m.l2.None? then None else Some(m.l2.value.AfterDel(key)))
  }

  function Step(m: Manager, request: Request, now: nat): Manager {
    match request
    case Get(key) => DoGet(m, key, now)
    case Set(key, value, ttl) => DoSet(m, key, value, ttl, now)
    case Delete(key) => DoDelete(m, key)
    case Clear => m.(l1 := [])
  }

  // ----- Runs -----

  datatype Call = Call(request: Request, now: nat)

  ghost predicate Fresh(m: Manager) {
    && 1 <= m.capacity && m.l1 == []
    && (m.l2.Some? ==> m.l2.value == Store(map[], map[]))
    && m.config.localTtl > 0 && m.config.redisTtl > 0
    && m.stats == Stats(0, 0, 0)
  }

  function Run(m: Manager, calls: seq<Call>): Manager {
    if calls == [] then m
    else var last := calls[|calls| - 1]; Step(Run(m, calls[..|calls| - 1]), last.request, last.now)
  }

  /** The clock never runs backwards. */
  ghost predicate Ordered(calls: seq<Call>) {
    forall i, j :: 0 <= i < j < |calls| ==> calls[i].now <= calls[j].now
  }

  datatype Write = Write(value: string, time: nat, l2Ttl: int)

  /** The latest Set of the key, unless a Delete came after it. */
  function LastWrite(config: Config, calls: seq<Call>, key: string): Option<Write> {
    if calls == [] then None
    else
      var last := calls[|calls| - 1];
      if last.request.Set? && last.request.key == key then
        Some(Write(last.request.value, last.now, TtlOr(last.request.ttl, config.redisTtl)))
      else if last.request == Delete(key) then None
      else LastWrite(config, calls[..|calls| - 1], key)
  }

  function L2Deadline(w: Write): int {
    w.time + w.l2Ttl * SECOND
  }

  function Deadline(config: Config, w: Write): int {
    w.time + (w.l2Ttl + config.localTtl) * SECOND
  }

  // ----- The invariant -----

  /** An entry of the first level comes from the last write and expires in time. */
  ghost predicate Backed(config: Config, calls: seq<Call>, e: Entry<string, string>) {
    var w := LastWrite(config, calls, e.key);
    w.Some? && e.value == w.value.value && 0 < e.expire <= Deadline(config, w.value)
  }

  /** The second level holds the last write of every key until its deadline, and nothing else. */
  ghost predicate Stored(config: Config, calls: seq<Call>, store: Store, now: nat, key: string) {
    var w := LastWrite(config, calls, key);
    && (key in store.values ==>
          && w.Some? && store.values[key] == w.value.value
          && key in store.expirations && store.expirations[key] == L2Deadline(w.value))
    && (w.Some? && key !in store.values ==> now > L2Deadline(w.value) && key !in store.expirations)
    && (w.None? ==> key !in store.expirations)
  }

  ghost predicate Inv(m: Manager, calls: seq<Call>, now: nat) {
    && 1 <= m.capacity && m.config.localTtl > 0 && m.config.redisTtl > 0
    && Distinct(m.l1) && |m.l1| <= m.capacity
    && (forall e :: e in m.l1 ==> Backed(m.config, calls, e))
    && (m.l2.Some? ==> forall key :: Stored(m.config, calls, m.l2.value, now, key))
  }

  lemma WithLast(calls: seq<Call>, call: Call)
    ensures (calls + [call])[|calls|] == call && (calls + [call])[..|calls|] == calls
  {}

  lemma LastWriteAfter(config: Config, calls: seq<Call>, call: Call, key: string)
    ensures LastWrite(config, calls + [call], key) ==
      if call.request.Set? && call.request.key == key then
        Some(Write(call.request.value, call.now, TtlOr(call.request.ttl, config.redisTtl)))
      else if call.request == Delete(key) then None
      else LastWrite(config, calls, key)
  {
    WithLast(calls, call);
  }

  lemma PutMembers(s: seq<Entry<string, string>>, capacity: nat, key: string, value: string, ttl: int, now: nat)
    requires 1 <= capacity && Distinct(s) && |s| <= capacity
    ensures Distinct(AfterPut(s, capacity, key, value, ttl, now))
    ensures |AfterPut(s, capacity, key, value, ttl, now)| <= capacity
    ensures forall e :: e in AfterPut(s, capacity, key, value, ttl, now) ==>
      e == Entry(key, value, ExpireAt(now, ttl)) || (e in s && e.key != key)
  {
    LruTraces.ApplyKeepsKeys(s, capacity, LruTraces.Event(LruTraces.Op.Put(key, value, ttl), now));
    LruTraces.WithoutKeys(s, key);
    LruTraces.LookupMember(s, key);
    LruTraces.EvictKeys(s, now);
  }

  lemma GetMembers(s: seq<Entry<string, string>>, capacity: nat, key: string, now: nat)
    requires 1 <= capacity && Distinct(s) && |s| <= capacity
    ensures Distinct(AfterGet(s, key, now)) && |AfterGet(s, key, now)| <= capacity
    ensures forall e :: e in AfterGet(s, key, now) ==> e in s
  {
    LruTraces.ApplyKeepsKeys(s, capacity, LruTraces.Event(LruTraces.Op<string, string>.Get(key), now));
    LruTraces.WithoutKeys(s, key);
    LruTraces.LookupMember(s, key);
  }

  lemma GetKeepsInv(m: Manager, calls: seq<Call>, before: nat, key: string, now: nat)
    requires Inv(m, calls, before) && before <= now
    ensures Inv(DoGet(m, key, now), calls + [Call(Get(key), now)], now)
  {
    var call, config := Call(Get(key), now), m.config;
    forall k {
      LastWriteAfter(config, calls, call, k);
    }
    GetMembers(m.l1, m.capacity, key, now);
    if Hit(m.l1, key, now).None? && m.l2.Some? && m.l2.value.Read(key, now).Some? {
      var value := m.l2.value.Read(key, now).value;
      assert Stored(config, calls, m.l2.value, before, key);
      PutMembers(AfterGet(m.l1, key, now), m.capacity, key, value, config.localTtl, now);
      assert Backed(config, calls + [call], Entry(key, value, ExpireAt(now, config.localTtl)));
    }
    forall e | e in m.l1
      ensures Backed(config, calls + [call], e)
    {
      assert Backed(config, calls, e);
    }
    if m.l2.Some? {
      forall k
        ensures Stored(config, calls + [call], m.l2.value, now, k)
        ensures Stored(config, calls + [call], m.l2.value.AfterGet(key, now), now, k)
      {
        assert Stored(config, calls, m.l2.value, before, k);
      }
    }
  }

  lemma SetKeepsInv(m: Manager, calls: seq<Call>, before: nat, key: string, value: string, ttl: int, now: nat)
    requires Inv(m, calls, before) && before <= now
    ensures Inv(DoSet(m, key, value, ttl, now), calls + [Call(Set(key, value, ttl), now)], now)
  {
    var call, config := Call(Set(key, value, ttl), now), m.config;
    forall k {
      LastWriteAfter(config, calls, call, k);
    }
    PutMembers(m.l1, m.capacity, key, value, TtlOr(ttl, config.localTtl), now);
    assert Backed(config, calls + [call], Entry(key, value, ExpireAt(now, TtlOr(ttl, config.localTtl))));
    forall e | e in m.l1 && e.key != key
      ensures Backed(config, calls + [call], e)
    {
      assert Backed(config, calls, e);
    }
    if m.l2.Some? {
      forall k
        ensures var store := m.l2.value.AfterSet(key, value, TtlOr(ttl, config.redisTtl), now);
          Stored(config, calls + [call], store, now, k)
      {
        assert Stored(config, calls, m.l2.value, before, k);
      }
    }
  }

  lemma DeleteKeepsInv(m: Manager, calls: seq<Call>, before: nat, key: string, now: nat)
    requires Inv(m, calls, before) && before <= now
    ensures Inv(DoDelete(m, key), calls + [Call(Delete(key), now)], now)
  {
    var call, config := Call(Delete(key), now), m.config;
    forall k {
      LastWriteAfter(config, calls, call, k);
    }
    LruTraces.WithoutKeys(m.l1, key);
    forall e | e in m.l1 && e.key != key
      ensures Backed(config, calls + [call], e)
    {
      assert Backed(config, calls, e);
    }
    if m.l2.Some? {
      forall k
        ensures Stored(config, calls + [call], m.l2.value.AfterDel(key), now, k)
      {
        assert Stored(config, calls, m.l2.value, before, k);
      }
    }
  }

  lemma ClearKeepsInv(m: Manager, calls: seq<Call>, before: nat, now: nat)
    requires Inv(m, calls, before) && before <= now
    ensures Inv(m.(l1 := []), calls + [Call(Clear, now)], now)
  {
    var call := Call(Clear, now);
    forall k {
      LastWriteAfter(m.config, calls, call, k);
    }
    if m.l2.Some? {
      forall k
        ensures Stored(m.config, calls + [call], m.l2.value, now, k)
      {
        assert Stored(m.config, calls, m.l2.value, before, k);
      }
    }
  }

  lemma StepKeepsInv(m: Manager, calls: seq<Call>, before: nat, last: Call)
    requires Inv(m, calls, before) && before <= last.now
    ensures Inv(Step(m, last.request, last.now), calls + [last], last.now)
    ensures Step(m, last.request, last.now).config == m.config
    ensures Step(m, last.request, last.now).l2.Some? <==> m.l2.Some?
  {
    hide Inv;
    match last.request
    case Get(key) => GetKeepsInv(m, calls, before, key, last.now);
    case Set(key, value, ttl) => SetKeepsInv(m, calls, before, key, value, ttl, last.now);
    case Delete(key) => DeleteKeepsInv(m, calls, before, key, last.now);
    case Clear => ClearKeepsInv(m, calls, before, last.now);
  }

  lemma {:induction false} RunKeepsInv(m: Manager, calls: seq<Call>)
    requires Fresh(m) && Ordered(calls)
    ensures Inv(Run(m, calls), calls, if calls == [] then 0 else calls[|calls| - 1].now)
    ensures Run(m, calls).config == m.config && (Run(m, calls).l2.Some? <==> m.l2.Some?)
  {
    if calls != [] {
      hide Inv, Step;
      var before, last := calls[..|calls| - 1], calls[|calls| - 1];
      RunKeepsInv(m, before);
      assert calls == before + [last];
      StepKeepsInv(Run(m, before), before, if before == [] then 0 else before[|before| - 1].now, last);
    }
  }

  // ----- The theorems -----

  /** A value read is the last one written, no older than both lifetimes together; and until the store's
      own deadline a connected manager never loses the last value. */
  lemma LastWriteWithinBounds(m: Manager, calls: seq<Call>, key: string, now: nat)
    requires Fresh(m) && Ordered(calls)
    requires calls != [] ==> calls[|calls| - 1].now <= now
    ensures var answer, w := GetAnswer(Run(m, calls), key, now), LastWrite(m.config, calls, key);
      && (answer.Some? ==> w.Some? && answer.value == w.value.value && now <= Deadline(m.config, w.value))
      && (m.l2.Some? && w.Some? && now <= L2Deadline(w.value) ==> answer == Some(w.value.value))
  {
    RunKeepsInv(m, calls);
    var r := Run(m, calls);
    LruTraces.LookupMember(r.l1, key);
    if Lookup(r.l1, key).Some? {
      assert Backed(m.config, calls, Lookup(r.l1, key).value);
    }
    if r.l2.Some? {
      assert Stored(m.config, calls, r.l2.value, if calls == [] then 0 else calls[|calls| - 1].now, key);
    }
  }

  /** The bound is reached under every configuration: written, dropped from the first level, read back at
      the store's deadline, and then read until the first level's copy expires. */
  lemma StalenessIsReached(m: Manager, key: string, value: string, time: nat)
    requires Fresh(m) && m.l2.Some?
    ensures var written := Write(value, time, m.config.redisTtl);
      var calls := [Call(Set(key, value, -1), time), Call(Clear, time), Call(Get(key), L2Deadline(written))];
      && Ordered(calls) && LastWrite(m.config, calls, key) == Some(written)
      && GetAnswer(Run(m, calls), key, Deadline(m.config, written)) == Some(value)
  {
    var written := Write(value, time, m.config.redisTtl);
    var m1 := DoSet(m, key, value, -1, time);
    var m2 := m1.(l1 := []);
    ThreeCalls(m, Call(Set(key, value, -1), time), Call(Clear, time), Call(Get(key), L2Deadline(written)), key);
    assert m2.l2.value.Read(key, L2Deadline(written)) == Some(value);
    var r := DoGet(m2, key, L2Deadline(written));
    assert r.l1 == [Entry(key, value, Deadline(m.config, written))];
    assert Lookup(r.l1, key) == Some(r.l1[0]);
  }

  lemma ThreeCalls(m: Manager, a: Call, b: Call, c: Call, key: string)
    ensures Run(m, [a, b, c]) == Step(Step(Step(m, a.request, a.now), b.request, b.now), c.request, c.now)
    ensures !b.request.Set? && !b.request.Delete? && !c.request.Set? && !c.request.Delete? ==>
      LastWrite(m.config, [a, b, c], key) == LastWrite(m.config, [a], key)
  {
    hide Step;
    assert [a, b, c][..2] == [a, b] && [a, b][..1] == [a] && [a][..0] == [];
    assert Run(m, [a]) == Step(m, a.request, a.now);
    assert Run(m, [a, b]) == Step(Run(m, [a]), b.request, b.now);
    assert !b.request.Set? && !b.request.Delete? ==> LastWrite(m.config, [a, b], key) == LastWrite(m.config, [a], key);
  }

  function Gets(calls: seq<Call>): nat {
    if calls == [] then 0 else Gets(calls[..|calls| - 1]) + if calls[|calls| - 1].request.Get? then 1 else 0
  }

  /** Every Get is counted exactly once. */
  lemma {:induction false} StatsCountGets(m: Manager, calls: seq<Call>)
    requires Fresh(m)
    ensures var s := Run(m, calls).stats; s.l1Hits + s.l2Hits + s.misses == Gets(calls)
  {
    if calls != [] { StatsCountGets(m, calls[..|calls| - 1]); }
  }
}
