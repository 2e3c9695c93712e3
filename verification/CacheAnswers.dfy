/** What the manager answers in every run: the first level by itself, both levels together, and what is counted. */
module CacheAnswers {
  import opened Wrappers
  import opened LruSpec
  import opened CacheSpec
  import LruTraces
  import LruAnswers

  /** The clock never runs backwards, up to now. */
  ghost predicate InOrder(calls: seq<Call>, now: nat) {
    Ordered(calls) && forall i :: 0 <= i < |calls| ==> calls[i].now <= now
  }

  /** Nothing removes or overwrites the key in the first level. */
  ghost predicate Quiet(calls: seq<Call>, key: string) {
    forall i :: 0 <= i < |calls| ==> SparesKey(calls[i].request, key)
  }

  predicate SparesKey(request: Request, key: string) {
    !request.Clear? && (request.Set? || request.Delete? ==> request.key != key)
  }

  /** The other keys that a call reads or writes. */
  function OtherKey(request: Request, key: string): set<string> {
    if (request.Get? || request.Set?) && request.key != key then {request.key} else {}
  }

  function OtherKeys(calls: seq<Call>, key: string): set<string> {
    if calls == [] then {}
    else OtherKeys(calls[..|calls| - 1], key) + OtherKey(calls[|calls| - 1].request, key)
  }

  // ----- An entry in use stays in the first level -----

  ghost predicate Holds(m: Manager, kept: Entry<string, string>, others: set<string>) {
    && 1 <= m.capacity && Distinct(m.l1) && |m.l1| <= m.capacity
    && Lookup(m.l1, kept.key) == Some(kept) && LruTraces.Before(m.l1, kept.key) <= others
  }

  lemma PutSpares(m: Manager, kept: Entry<string, string>, others: set<string>, key: string, value: string, ttl: int,
                  now: nat)
    requires Holds(m, kept, others) && key != kept.key && !kept.Expired(now) && |others + {key}| < m.capacity
    ensures Holds(m.(l1 := AfterPut(m.l1, m.capacity, key, value, ttl, now)), kept, others + {key})
  {
    var put := LruTraces.Event(LruTraces.Op.Put(key, value, ttl), now);
    hide AfterPut, LruTraces.Before, Lookup, Distinct;
    LruTraces.ApplySpares(m.l1, m.capacity, put, kept, others);
    LruTraces.ApplyKeepsKeys(m.l1, m.capacity, put);
  }

  lemma GetSpares(m: Manager, kept: Entry<string, string>, others: set<string>, key: string, now: nat)
    requires Holds(m, kept, others) && !kept.Expired(now)
    ensures Holds(m.(l1 := AfterGet(m.l1, key, now)), kept, others + ({key} - {kept.key}))
  {
    var get := LruTraces.Event(LruTraces.Op<string, string>.Get(key), now);
    hide AfterGet, LruTraces.Before, Lookup, Distinct;
    LruTraces.ApplySpares(m.l1, m.capacity, get, kept, others);
    LruTraces.ApplyKeepsKeys(m.l1, m.capacity, get);
    LruTraces.BeforeAreKeys(AfterGet(m.l1, key, now), kept.key);
  }

  lemma DeleteSpares(m: Manager, kept: Entry<string, string>, others: set<string>, key: string)
    requires Holds(m, kept, others) && key != kept.key
    ensures Holds(m.(l1 := Without(m.l1, key)), kept, others)
  {
    LruTraces.BeforeWithout(m.l1, kept.key, key);
    LruTraces.WithoutKeys(m.l1, key);
  }

  lemma StepSpares(m: Manager, last: Call, kept: Entry<string, string>, others: set<string>)
    requires Holds(m, kept, others) && SparesKey(last.request, kept.key) && !kept.Expired(last.now)
    requires |others + OtherKey(last.request, kept.key)| < m.capacity
    ensures var r := Step(m, last.request, last.now);
      r.capacity == m.capacity && Holds(r, kept, others + OtherKey(last.request, kept.key))
  {
    hide AfterGet, AfterPut, Without, Holds, Hit, Entry.Expired;
    match last.request
    case Get(key) =>
      GetSpares(m, kept, others, key, last.now);
      HitOfHeld(m, kept, others, last.now);
      var all := others + ({key} - {kept.key});
      assert all == others + OtherKey(last.request, kept.key);
      if key != kept.key && m.l2.Some? && m.l2.value.Read(key, last.now).Some? {
        var got := m.(l1 := AfterGet(m.l1, key, last.now));
        assert all + {key} == all;
        PutSpares(got, kept, all, key, m.l2.value.Read(key, last.now).value, m.config.localTtl, last.now);
      }
      OnlyFirstLevel(m, Step(m, last.request, last.now), kept, all);
    case Set(key, value, ttl) =>
      PutSpares(m, kept, others, key, value, TtlOr(ttl, m.config.localTtl), last.now);
      OnlyFirstLevel(m, Step(m, last.request, last.now), kept, others + {key});
    case Delete(key) =>
      DeleteSpares(m, kept, others, key);
      assert others + {} == others;
      OnlyFirstLevel(m, Step(m, last.request, last.now), kept, others);
  }

  lemma HitOfHeld(m: Manager, kept: Entry<string, string>, others: set<string>, now: nat)
    requires Holds(m, kept, others) && !kept.Expired(now)
    ensures Hit(m.l1, kept.key, now) == Some(kept.value)
  {}

  /** Holds speaks of the first level alone. */
  lemma OnlyFirstLevel(m: Manager, r: Manager, kept: Entry<string, string>, others: set<string>)
    requires r.capacity == m.capacity && Holds(m.(l1 := r.l1), kept, others)
    ensures Holds(r, kept, others)
  {}

  lemma {:induction false} RunBoth(m: Manager, early: seq<Call>, late: seq<Call>)
    ensures Run(m, early + late) == Run(Run(m, early), late)
    decreases |late|
  {
    hide Step;
    if late == [] {
      assert early + late == early;
    } else {
      var rest, last := late[..|late| - 1], late[|late| - 1];
      assert early + late == (early + rest) + [last];
      assert ((early + rest) + [last])[..|early + rest|] == early + rest;
      RunBoth(m, early, rest);
    }
  }

  lemma LastCall(m: Manager, early: seq<Call>, last: Call)
    ensures Run(m, early + [last]) == Step(Run(m, early), last.request, last.now)
  {
    hide Step;
    assert (early + [last])[..|early|] == early;
  }

  lemma {:induction false} RunSpares(m: Manager, late: seq<Call>, kept: Entry<string, string>)
    requires Holds(m, kept, {}) && Quiet(late, kept.key) && |OtherKeys(late, kept.key)| < m.capacity
    requires forall i :: 0 <= i < |late| ==> !kept.Expired(late[i].now)
    ensures Run(m, late).capacity == m.capacity && Holds(Run(m, late), kept, OtherKeys(late, kept.key))
    decreases |late|
  {
    hide Step, Holds, Entry.Expired, OtherKey, SparesKey;
    if late != [] {
      var rest, last := late[..|late| - 1], late[|late| - 1];
      LruTraces.SubsetSize(OtherKeys(rest, kept.key), OtherKeys(late, kept.key));
      RunSpares(m, rest, kept);
      StepSpares(Run(m, rest), last, kept, OtherKeys(rest, kept.key));
    }
  }

  lemma FrontIsHeld(m: Manager)
    requires m.l1 != [] && 1 <= m.capacity && Distinct(m.l1) && |m.l1| <= m.capacity
    ensures Holds(m, m.l1[0], {})
  {}

  lemma RunInBounds(m: Manager, calls: seq<Call>, now: nat)
    requires Fresh(m) && InOrder(calls, now)
    ensures var r := Run(m, calls); 1 <= r.capacity && Distinct(r.l1) && |r.l1| <= r.capacity && r.config == m.config
    ensures Run(m, calls).capacity == m.capacity
  {
    RunKeepsInv(m, calls);
    CapacityStays(m, calls);
  }

  lemma {:induction false} CapacityStays(m: Manager, calls: seq<Call>)
    ensures Run(m, calls).capacity == m.capacity
  {
    if calls != [] { CapacityStays(m, calls[..|calls| - 1]); }
  }

  /** What is at the front of the first level is answered from there, and counted as such, until it expires, while
      nothing removes or overwrites it and fewer than capacity other keys are touched. */
  lemma FrontAnswers(m: Manager, early: seq<Call>, late: seq<Call>, now: nat)
    requires Fresh(m) && InOrder(early + late, now)
    requires var l1 := Run(m, early).l1;
      && l1 != [] && !l1[0].Expired(now)
      && Quiet(late, l1[0].key) && |OtherKeys(late, l1[0].key)| < m.capacity
    ensures var front, r := Run(m, early).l1[0], Run(m, early + late);
      && GetAnswer(r, front.key, now) == Some(front.value)
      && DoGet(r, front.key, now).stats == r.stats.(l1Hits := r.stats.l1Hits + 1)
  {
    var front := Run(m, early).l1[0];
    InOrderEarly(early, late, now);
    hide Run, Step, Holds, Quiet, OtherKeys, AfterGet, AfterPut, InOrder;
    RunInBounds(m, early, now);
    FrontIsHeld(Run(m, early));
    RunBoth(m, early, late);
    RunSpares(Run(m, early), late, front);
    HitOfHeld(Run(m, early + late), front, OtherKeys(late, front.key), now);
  }

  /** A value that was set is answered by the first level alone until the ttl that was passed, or else the configured
      one, has run out. */
  lemma SetAnswers(m: Manager, early: seq<Call>, key: string, value: string, ttl: int, time: nat, late: seq<Call>,
                   now: nat)
    requires Fresh(m) && InOrder(early + [Call(Set(key, value, ttl), time)] + late, now)
    requires Quiet(late, key) && |OtherKeys(late, key)| < m.capacity
    requires now <= time + (if ttl > 0 then ttl else m.config.localTtl) * 1_000_000_000
    ensures var r := Run(m, early + [Call(Set(key, value, ttl), time)] + late);
      && GetAnswer(r, key, now) == Some(value)
      && DoGet(r, key, now).stats == r.stats.(l1Hits := r.stats.l1Hits + 1)
  {
    var write := Call(Set(key, value, ttl), time);
    assert m.config.localTtl > 0;
    hide *;
    assert early + ([write] + late) == early + [write] + late;
    InOrderEarly(early, [write] + late, now);
    RunInBounds(m, early, now);
    LastCall(m, early, write);
    SetIsInFront(Run(m, early), key, value, ttl, time);
    UnexpiredUntil(key, value, time + (if ttl > 0 then ttl else m.config.localTtl) * 1_000_000_000, now);
    FrontAnswers(m, early + [write], late, now);
  }

  lemma InOrderEarly(early: seq<Call>, late: seq<Call>, now: nat)
    requires InOrder(early + late, now)
    ensures InOrder(early, now)
    ensures forall i :: 0 <= i < |late| ==> late[i].now <= now
  {
    assert forall i :: 0 <= i < |early| ==> (early + late)[i] == early[i];
    assert forall i :: 0 <= i < |late| ==> (early + late)[|early| + i] == late[i];
  }

  lemma SetIsInFront(m: Manager, key: string, value: string, ttl: int, now: nat)
    requires m.config.localTtl > 0
    ensures var l1 := Step(m, Set(key, value, ttl), now).l1;
      l1 != [] && l1[0] == Entry(key, value, now + (if ttl > 0 then ttl else m.config.localTtl) * 1_000_000_000)
  {}

  lemma UnexpiredUntil(key: string, value: string, expire: nat, now: nat)
    requires now <= expire
    ensures !Entry(key, value, expire).Expired(now)
  {}

  /** A value that a Get has answered is at the front of the first level: as it was there, or with the configured ttl
      from then on when the store had it. */
  lemma AnsweredIsInFront(m: Manager, key: string, now: nat)
    requires GetAnswer(m, key, now).Some?
    ensures var r, value := Step(m, Get(key), now), GetAnswer(m, key, now).value;
      && r.l1 != [] && r.l1[0].key == key && r.l1[0].value == value
      && (Hit(m.l1, key, now).Some? ==> r.l1[0] in m.l1)
      && (Hit(m.l1, key, now).None? && m.config.localTtl > 0 ==>
            r.l1[0].expire == now + m.config.localTtl * 1_000_000_000)
  {
    LruTraces.LookupMember(m.l1, key);
  }

  // ----- Where answers come from -----

  /** The call sets the key. */
  predicate SetsKey(request: Request, key: string) {
    request.Set? && request.key == key
  }

  ghost predicate NeverSet(calls: seq<Call>, key: string) {
    forall i :: 0 <= i < |calls| ==> !SetsKey(calls[i].request, key)
  }

  /** The entry is what the given call has set, and its key has been left alone since. */
  ghost predicate SetAt(config: Config, calls: seq<Call>, i: nat, e: Entry<string, string>) {
    && i < |calls| && SetsKey(calls[i].request, e.key) && calls[i].request.value == e.value
    && e.expire ==
      calls[i].now + (if calls[i].request.ttl > 0 then calls[i].request.ttl else config.localTtl) * 1_000_000_000
    && forall j :: i < j < |calls| ==> SparesKey(calls[j].request, e.key)
  }

  lemma StepMembersAlone(m: Manager, request: Request, now: nat)
    requires 1 <= m.capacity && Distinct(m.l1) && |m.l1| <= m.capacity && m.l2.None? && m.config.localTtl > 0
    ensures forall e :: e in Step(m, request, now).l1 ==>
      || (e in m.l1 && SparesKey(request, e.key))
      || (request.Set? && e == Entry(request.key, request.value,
            now + (if request.ttl > 0 then request.ttl else m.config.localTtl) * 1_000_000_000))
  {
    match request
    case Get(key) => GetMembers(m.l1, m.capacity, key, now);
    case Set(key, value, ttl) => PutMembers(m.l1, m.capacity, key, value, TtlOr(ttl, m.config.localTtl), now);
    case Delete(key) => LruTraces.WithoutKeys(m.l1, key);
    case Clear =>
  }

  /** Without a store every entry of the first level comes from the last call that named its key to write or remove
      it. */
  lemma {:induction false} EntriesAreLastSets(m: Manager, calls: seq<Call>)
    requires Fresh(m) && Ordered(calls) && m.l2.None?
    ensures forall e :: e in Run(m, calls).l1 ==> exists i: nat :: SetAt(m.config, calls, i, e)
  {
    hide Step, SparesKey, SetsKey, Inv;
    if calls != [] {
      var before, last := calls[..|calls| - 1], calls[|calls| - 1];
      EntriesAreLastSets(m, before);
      var r := Run(m, before);
      RunKeepsInv(m, before);
      InvBounds(r, before, if before == [] then 0 else before[|before| - 1].now);
      StepMembersAlone(r, last.request, last.now);
      forall e | e in Run(m, calls).l1 ensures exists i: nat :: SetAt(m.config, calls, i, e) {
        if e in r.l1 && SparesKey(last.request, e.key) {
          var i: nat :| SetAt(m.config, before, i, e);
          assert SetAt(m.config, calls, i, e);
        } else {
          assert SetsKey(last.request, e.key) by { IsSet(last.request, e.key); }
          assert SetAt(m.config, calls, |before|, e);
        }
      }
    }
  }

  lemma IsSet(request: Request, key: string)
    ensures request.Set? && request.key == key ==> SetsKey(request, key)
  {}

  lemma InvBounds(m: Manager, calls: seq<Call>, now: nat)
    requires Inv(m, calls, now)
    ensures 1 <= m.capacity && Distinct(m.l1) && |m.l1| <= m.capacity && m.config.localTtl > 0
  {}

  /** Without a store, a value that was set is not answered any more when its ttl has run out, and no other value is
      answered while the key is not set again. */
  lemma SetExpiresAlone(m: Manager, early: seq<Call>, key: string, value: string, ttl: int, time: nat, late: seq<Call>,
                        now: nat)
    requires Fresh(m) && m.l2.None? && Ordered(early + [Call(Set(key, value, ttl), time)] + late)
    requires NeverSet(late, key)
    ensures var answer := GetAnswer(Run(m, early + [Call(Set(key, value, ttl), time)] + late), key, now);
      && (answer.Some? ==> answer.value == value)
      && (now > time + (if ttl > 0 then ttl else m.config.localTtl) * 1_000_000_000 ==> answer == None)
  {
    assert m.config.localTtl > 0;
    hide *;
    var write := Call(Set(key, value, ttl), time);
    var calls := early + [write] + late;
    assert SetsKey(write.request, key) by { IsSet(write.request, key); }
    EntriesAreLastSets(m, calls);
    NoStore(m, calls);
    if GetAnswer(Run(m, calls), key, now).Some? {
      var e := AnswerIsEntry(Run(m, calls), key, now);
      var i: nat :| SetAt(m.config, calls, i, e);
      EntryIsSet(m.config, early, write, late, i, e);
    }
  }

  lemma AnswerIsEntry(m: Manager, key: string, now: nat) returns (e: Entry<string, string>)
    requires m.l2.None? && GetAnswer(m, key, now).Some?
    ensures e in m.l1 && e.key == key && GetAnswer(m, key, now) == Some(e.value) && (e.expire != 0 ==> now <= e.expire)
  {
    LruTraces.LookupMember(m.l1, key);
    e := Lookup(m.l1, key).value;
  }

  lemma EntryIsSet(config: Config, early: seq<Call>, write: Call, late: seq<Call>, i: nat, e: Entry<string, string>)
    requires SetsKey(write.request, e.key) && NeverSet(late, e.key) && config.localTtl > 0
    requires SetAt(config, early + [write] + late, i, e)
    ensures e.value == write.request.value && 0 != e.expire ==
      write.now + (if write.request.ttl > 0 then write.request.ttl else config.localTtl) * 1_000_000_000
  {
    SetIsThere(early, write, late, i, e.key);
  }

  lemma NoStore(m: Manager, calls: seq<Call>)
    requires Fresh(m) && Ordered(calls)
    ensures Run(m, calls).l2.Some? <==> m.l2.Some?
  {
    RunKeepsInv(m, calls);
  }

  lemma SetIsThere(early: seq<Call>, write: Call, late: seq<Call>, i: nat, key: string)
    requires SetsKey(write.request, key) && NeverSet(late, key)
    requires var calls := early + [write] + late;
      && i < |calls| && SetsKey(calls[i].request, key)
      && forall j :: i < j < |calls| ==> SparesKey(calls[j].request, key)
    ensures (early + [write] + late)[i] == write
  {
    var calls := early + [write] + late;
    assert calls[|early|] == write;
    assert forall j :: |early| < j < |calls| ==> calls[j] == late[j - |early| - 1];
  }

  /** The last write is the last set that no delete has followed. */
  lemma {:induction false} LastWriteIs(config: Config, early: seq<Call>, late: seq<Call>, key: string)
    requires NeverSet(late, key) && forall i :: 0 <= i < |late| ==> late[i].request != Delete(key)
    ensures LastWrite(config, early + late, key) == LastWrite(config, early, key)
    decreases |late|
  {
    if late == [] {
      assert early + late == early;
    } else {
      var rest, last := late[..|late| - 1], late[|late| - 1];
      assert early + late == (early + rest) + [last];
      LastWriteAfter(config, early + rest, last, key);
      LastWriteIs(config, early, rest, key);
    }
  }

  /** With a store, a value that was set is answered until the ttl that was passed, or else the store's configured one,
      has run out, whatever happens to the first level; and not behind that time by more than the first level's ttl. */
  lemma SetAnswersWithStore(m: Manager, early: seq<Call>, key: string, value: string, ttl: int, time: nat,
                            late: seq<Call>, now: nat)
    requires Fresh(m) && m.l2.Some? && InOrder(early + [Call(Set(key, value, ttl), time)] + late, now)
    requires NeverSet(late, key) && forall i :: 0 <= i < |late| ==> late[i].request != Delete(key)
    ensures var answer := GetAnswer(Run(m, early + [Call(Set(key, value, ttl), time)] + late), key, now);
      var l2Ttl := if ttl > 0 then ttl else m.config.redisTtl;
      && (now <= time + l2Ttl * 1_000_000_000 ==> answer == Some(value))
      && (answer.Some? ==> answer.value == value && now <= time + (l2Ttl + m.config.localTtl) * 1_000_000_000)
  {
    var write := Call(Set(key, value, ttl), time);
    hide Run, GetAnswer;
    LastWriteAfter(m.config, early, write, key);
    LastWriteIs(m.config, early + [write], late, key);
    LastWriteWithinBounds(m, early + [write] + late, key, now);
  }

  /** A key that has not been set since it was deleted, or at all, is not answered. */
  lemma NothingSet(m: Manager, early: seq<Call>, late: seq<Call>, key: string, now: nat)
    requires Fresh(m) && InOrder(early + late, now)
    requires early == [] || early[|early| - 1].request == Delete(key)
    requires NeverSet(late, key)
    ensures GetAnswer(Run(m, early + late), key, now) == None
  {
    hide Run, GetAnswer;
    NoWrite(m.config, early, late, key);
    LastWriteWithinBounds(m, early + late, key, now);
  }

  lemma {:induction false} NoWrite(config: Config, early: seq<Call>, late: seq<Call>, key: string)
    requires early == [] || early[|early| - 1].request == Delete(key)
    requires NeverSet(late, key)
    ensures LastWrite(config, early + late, key) == None
    decreases |late|
  {
    if late == [] {
      assert early + late == early;
    } else {
      var rest, last := late[..|late| - 1], late[|late| - 1];
      assert early + late == (early + rest) + [last];
      LastWriteAfter(config, early + rest, last, key);
      NoWrite(config, early, rest, key);
    }
  }

  // ----- What is counted -----

  function GetsAnswered(m: Manager, calls: seq<Call>): nat {
    if calls == [] then 0
    else
      var before, last := calls[..|calls| - 1], calls[|calls| - 1];
      GetsAnswered(m, before) +
      if last.request.Get? && GetAnswer(Run(m, before), last.request.key, last.now).Some? then 1 else 0
  }

  /** Hits are the Gets that are answered and misses the others; without a store the second level hits nothing. */
  lemma {:induction false} AnswersAreCounted(m: Manager, calls: seq<Call>)
    requires Fresh(m)
    ensures var s := Run(m, calls).stats;
      s.l1Hits + s.l2Hits == GetsAnswered(m, calls) && s.misses == Gets(calls) - GetsAnswered(m, calls)
    ensures m.l2.None? ==> Run(m, calls).stats.l2Hits == 0 && Run(m, calls).l2.None?
  {
    if calls != [] {
      var before, last := calls[..|calls| - 1], calls[|calls| - 1];
      AnswersAreCounted(m, before);
      hide Hit, AfterGet, AfterPut;
      assert Run(m, calls) == Step(Run(m, before), last.request, last.now);
    }
  }

  /** Right behind a Clear, what is answered comes from the store and is counted as such. */
  lemma ClearedIsAnsweredByStore(m: Manager, early: seq<Call>, time: nat, key: string, now: nat)
    ensures var r := Run(m, early + [Call(Clear, time)]);
      GetAnswer(r, key, now).Some? ==> DoGet(r, key, now).stats == r.stats.(l2Hits := r.stats.l2Hits + 1)
  {
    LastCall(m, early, Call(Clear, time));
  }

  // ----- The store by itself -----

  /** A set without a ttl keeps the expiry an earlier one has left, so that the new value can be stale at once. */
  lemma StoreReadsBack(store: Store, key: string, value: string, ttl: int, time: nat, now: nat)
    ensures store.AfterSet(key, value, ttl, time).Read(key, now) ==
      if ttl > 0 then (if now <= time + ttl * 1_000_000_000 then Some(value) else None)
      else if key in store.expirations && now > store.expirations[key] then None
      else Some(value)
    ensures forall other :: other != key ==>
      store.AfterSet(key, value, ttl, time).Read(other, now) == store.Read(other, now)
  {}

  /** A read behind the expiry removes value and expiry, so that a later set without a ttl does not expire; any other
      read changes nothing. */
  lemma StaleIsForgotten(store: Store, key: string, value: string, ttl: int, now: nat, later: nat)
    requires key in store.expirations && ttl <= 0
    ensures now > store.expirations[key] ==>
      && store.AfterGet(key, now).Read(key, later) == None
      && store.AfterGet(key, now).AfterSet(key, value, ttl, now).Read(key, later) == Some(value)
    ensures now <= store.expirations[key] ==> store.AfterGet(key, now) == store
  {}
}
