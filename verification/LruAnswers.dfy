/** What the operations of the cache do by position, and what a whole trace makes a Get answer. */
module LruAnswers {
  import opened Wrappers
  import opened LruSpec
  import opened LruTraces

  /** A time in the last moment of which an entry put with this ttl still answers; 0 is never. */
  function Deadline(time: nat, ttl: int): nat {
    if ttl > 0 then time + ttl * 1_000_000_000 else 0
  }

  // ----- By position -----

  /** A hit moves to the front, an expired entry goes, and a missing key changes nothing. */
  lemma GetIs<K, V>(s: seq<Entry<K, V>>, key: K, now: nat)
    requires Distinct(s)
    ensures forall i :: 0 <= i < |s| && s[i].key == key ==>
      && Hit(s, key, now) == (if s[i].expire != 0 && s[i].expire < now then None else Some(s[i].value))
      && AfterGet(s, key, now) ==
        (if s[i].expire != 0 && s[i].expire < now then [] else [s[i]]) + (s[..i] + s[i + 1..])
    ensures (forall i :: 0 <= i < |s| ==> s[i].key != key) ==> Hit(s, key, now) == None && AfterGet(s, key, now) == s
  {
    hide Lookup, Without, Distinct;
    forall i | 0 <= i < |s| && s[i].key == key
      ensures Lookup(s, key) == Some(s[i]) && Without(s, key) == s[..i] + s[i + 1..]
    {
      LookupAt(s, i);
    }
    if forall i :: 0 <= i < |s| ==> s[i].key != key { LookupMissing(s, key); }
  }

  /** A put leaves the new entry in front of the others: of an old one of its key nothing is left, and while there is
      room the others stay as they are. */
  lemma PutIs<K, V>(s: seq<Entry<K, V>>, capacity: nat, key: K, value: V, ttl: int, now: nat)
    requires Distinct(s)
    ensures var e, r := Entry(key, value, Deadline(now, ttl)), AfterPut(s, capacity, key, value, ttl, now);
      && r != [] && r[0] == e
      && (forall i :: 0 <= i < |s| && s[i].key == key ==> r == [e] + (s[..i] + s[i + 1..]))
      && ((forall i :: 0 <= i < |s| ==> s[i].key != key) && |s| < capacity ==> r == [e] + s)
  {
    hide Lookup, Without, Distinct, EvictOne;
    forall i | 0 <= i < |s| && s[i].key == key
      ensures Lookup(s, key) == Some(s[i]) && Without(s, key) == s[..i] + s[i + 1..]
    {
      LookupAt(s, i);
    }
    if forall i :: 0 <= i < |s| ==> s[i].key != key { LookupMissing(s, key); }
  }

  lemma {:induction false} SweepIs<K, V>(s: seq<Entry<K, V>>, now: nat)
    ensures forall e :: e in Unexpired(s, now) ==> e in s && (e.expire == 0 || now <= e.expire)
    ensures forall e :: e in s && (e.expire == 0 || now <= e.expire) ==> e in Unexpired(s, now)
    ensures Sub(Unexpired(s, now), s)
  {
    if s != [] {
      SweepIs(s[1..], now);
      assert s == [s[0]] + s[1..];
    }
  }

  // ----- Over whole traces -----

  /** The operation neither writes nor removes the key by name. */
  predicate Spares<K(==), V>(op: Op<K, V>, key: K) {
    !op.Clear? && (op.Put? || op.Delete? ==> op.key != key)
  }

  /** The entry was written at the given place and nothing since has written or removed its key. */
  ghost predicate PutAt<K, V>(trace: seq<Event<K, V>>, i: nat, e: Entry<K, V>) {
    && i < |trace| && trace[i].op.Put? && trace[i].op.key == e.key && trace[i].op.value == e.value
    && e.expire == Deadline(trace[i].now, trace[i].op.ttl)
    && forall j :: i < j < |trace| ==> Spares(trace[j].op, e.key)
  }

  lemma ApplyMembers<K, V>(s: seq<Entry<K, V>>, capacity: nat, event: Event<K, V>)
    requires Distinct(s)
    ensures forall e :: e in Apply(s, capacity, event) ==>
      || (e in s && Spares(event.op, e.key))
      || (event.op.Put? && e == Entry(event.op.key, event.op.value, Deadline(event.now, event.op.ttl)))
  {
    match event.op
    case Get(key) => LookupMember(s, key); WithoutKeys(s, key);
    case Put(key, _, _) => LookupMember(s, key); WithoutKeys(s, key); EvictKeys(s, event.now);
    case Delete(key) => WithoutKeys(s, key);
    case Clear =>
    case EvictExpired =>
      SweepIs(s, event.now);
  }

  /** Every entry comes from the last operation that named its key, which was a put. */
  lemma {:induction false} EntriesAreLastPuts<K, V>(capacity: nat, trace: seq<Event<K, V>>)
    requires 1 <= capacity
    ensures forall e :: e in Run(capacity, trace) ==> exists i: nat :: PutAt(trace, i, e)
  {
    hide Apply, Spares, Distinct;
    if trace != [] {
      var before, last := trace[..|trace| - 1], trace[|trace| - 1];
      EntriesAreLastPuts(capacity, before);
      RunKeepsKeys(capacity, before);
      ApplyMembers(Run(capacity, before), capacity, last);
      forall e | e in Run(capacity, trace) ensures exists i: nat :: PutAt(trace, i, e) {
        if e in Run(capacity, before) && Spares(last.op, e.key) {
          var i: nat :| PutAt(before, i, e);
          assert PutAt(trace, i, e);
        } else {
          assert PutAt(trace, |before|, e);
        }
      }
    }
  }

  /** A put is answered until its deadline, for ever without a ttl, while nothing names its key and fewer than
      capacity other keys are touched; behind the deadline, whatever happens, it is not. */
  lemma PutAnswers<K, V>(capacity: nat, before: seq<Event<K, V>>, key: K, value: V, ttl: int, time: nat,
                         after: seq<Event<K, V>>, now: nat)
    requires 1 <= capacity && forall i :: 0 <= i < |after| ==> Spares(after[i].op, key) && after[i].now <= now
    ensures var answer := Hit(Run(capacity, before + [Event(Put(key, value, ttl), time)] + after), key, now);
      && (answer.Some? ==> answer.value == value)
      && (ttl > 0 && now > time + ttl * 1_000_000_000 ==> answer == None)
      && ((ttl > 0 ==> now <= time + ttl * 1_000_000_000) && |Touched(after) - {key}| < capacity ==>
            answer == Some(value))
  {
    var put := Event(Put(key, value, ttl), time);
    var trace, kept := before + [put] + after, Entry(key, value, Deadline(time, ttl));
    hide Run, Touched, Distinct;
    assert Uses(Run(capacity, before), put, key) && Used(Run(capacity, before), put, key) == kept;
    if (ttl > 0 ==> now <= time + ttl * 1_000_000_000) && |Touched(after) - {key}| < capacity {
      UsedKeySurvives(capacity, before, put, after, key, now);
    }
    EntriesAreLastPuts(capacity, trace);
    LookupMember(Run(capacity, trace), key);
    if Lookup(Run(capacity, trace), key).Some? {
      var e := Lookup(Run(capacity, trace), key).value;
      var i: nat :| PutAt(trace, i, e);
      PutIsThere(before, put, after, i, key);
    }
  }

  lemma PutIsThere<K, V>(before: seq<Event<K, V>>, put: Event<K, V>, after: seq<Event<K, V>>, i: nat, key: K)
    requires put.op.Put? && put.op.key == key && forall j :: 0 <= j < |after| ==> Spares(after[j].op, key)
    requires var trace := before + [put] + after;
      && i < |trace| && trace[i].op.Put? && trace[i].op.key == key
      && forall j :: i < j < |trace| ==> Spares(trace[j].op, key)
    ensures i == |before|
  {
    var trace := before + [put] + after;
    assert trace[|before|] == put;
    assert forall j :: |before| < j < |trace| ==> trace[j] == after[j - |before| - 1];
  }

  /** A key that no put has named since it was last deleted, or since the last clear, is not answered. */
  lemma NothingPut<K, V>(capacity: nat, before: seq<Event<K, V>>, after: seq<Event<K, V>>, key: K, now: nat)
    requires 1 <= capacity && (before != [] ==> before[|before| - 1].op in [Delete(key), Clear])
    requires forall i :: 0 <= i < |after| && after[i].op.Put? ==> after[i].op.key != key
    ensures Hit(Run(capacity, before + after), key, now) == None
  {
    var trace := before + after;
    hide Run, Distinct;
    EntriesAreLastPuts(capacity, trace);
    LookupMember(Run(capacity, trace), key);
    assert before != [] ==> trace[|before| - 1] == before[|before| - 1];
    assert forall j :: |before| <= j < |trace| ==> trace[j] == after[j - |before|];
    forall i: nat, e: Entry<K, V> | e.key == key
      ensures !PutAt(trace, i, e)
    {}
  }
}
