/** The cache object of src/cache/lru_cache.h: a list of nodes and a map from each key to its node,
    both updated in place. Every method refines its meaning on the recency sequence. */
module LruCache {
  import opened Wrappers
  import opened LruSpec

  /** A list node; a reference to it is what the source calls an iterator. */
  class Node<K, V> {
    const key: K
    var value: V
    var expire: nat

    constructor (key: K, value: V, expire: nat)
      ensures this.key == key && this.value == value && this.expire == expire
    {
      this.key, this.value, this.expire := key, value, expire;
    }
  }

  function Position<T(==)>(s: seq<T>, x: T): (i: nat)
    requires x in s
    ensures i < |s| && s[i] == x
  {
    if s[0] == x then 0 else 1 + Position(s[1..], x)
  }

  /** The map holds exactly the nodes of the list, each under its own key. */
  ghost predicate Linked<K, V>(list: seq<Node<K, V>>, index: map<K, Node<K, V>>) {
    && (forall i, j :: 0 <= i < j < |list| ==> list[i].key != list[j].key)
    && (forall n :: n in list ==> n.key in index && index[n.key] == n)
    && (forall k :: k in index ==> index[k] in list && index[k].key == k)
  }

  lemma RemoveAtIndex<T>(s: seq<T>, i: nat)
    requires i < |s|
    ensures |RemoveAt(s, i)| == |s| - 1
    ensures forall j :: 0 <= j < |s| - 1 ==> RemoveAt(s, i)[j] == s[if j < i then j else j + 1]
  {}

  lemma LinkedRemove<K, V>(list: seq<Node<K, V>>, index: map<K, Node<K, V>>, i: nat)
    requires Linked(list, index) && i < |list|
    ensures Linked(RemoveAt(list, i), index - {list[i].key})
    ensures forall n :: n in RemoveAt(list, i) <==> n in list && n != list[i]
  {
    RemoveAtIndex(list, i);
    hide RemoveAt;
    var rest := RemoveAt(list, i);
    forall n | n in list && n != list[i]
      ensures n in rest
    {
      var j := Position(list, n);
      assert n == rest[if j < i then j else j - 1];
    }
    forall n | n in rest
      ensures n in list && n.key != list[i].key
    {
      var j := Position(rest, n);
      assert n == list[if j < i then j else j + 1];
    }
  }

  lemma LinkedFront<K, V>(list: seq<Node<K, V>>, index: map<K, Node<K, V>>, i: nat)
    requires Linked(list, index) && i < |list|
    ensures Linked([list[i]] + RemoveAt(list, i), index)
    ensures forall n :: n in [list[i]] + RemoveAt(list, i) <==> n in list
  {
    LinkedRemove(list, index, i);
  }

  class LRUCache<K(==), V> {
    const capacity: nat
    var list: seq<Node<K, V>>
    var index: map<K, Node<K, V>>
    ghost var entries: seq<Entry<K, V>>

    ghost predicate Valid()
      reads this, list
    {
      && |list| <= capacity
      && |entries| == |list|
      && (forall i :: 0 <= i < |list| ==> Entry(list[i].key, list[i].value, list[i].expire) == entries[i])
      && Linked(list, index)
    }

    constructor (capacity: nat)
      ensures Valid() && this.capacity == capacity && entries == []
    {
      this.capacity, list, index, entries := capacity, [], map[], [];
    }

    /** A node of the list stands for the entry under its key. */
    lemma NodeEntry(node: Node<K, V>)
      requires Valid() && node in list
      ensures Distinct(entries)
      ensures var i := Position(list, node);
        && Lookup(entries, node.key) == Some(entries[i])
        && entries[i] == Entry(node.key, node.value, node.expire)
        && Without(entries, node.key) == RemoveAt(entries, i)
    {
      LookupAt(entries, Position(list, node));
    }

    lemma NodeAt(i: nat)
      requires Valid() && i < |list|
      ensures Without(entries, list[i].key) == RemoveAt(entries, i)
    {
      LookupAt(entries, i);
    }

    lemma NoNode(key: K)
      requires Valid() && key !in index
      ensures Lookup(entries, key) == None && Without(entries, key) == entries
    {
      LookupMissing(entries, key);
    }

    /** list_.erase(it) and map_.erase(key) together. */
    method EraseNode(node: Node<K, V>)
      requires Valid() && node in list
      modifies this
      ensures Valid()
      ensures entries == Without(old(entries), node.key)
      ensures |list| == |old(list)| - 1 && (forall n :: n in list ==> n in old(list))
      ensures node.key !in index && index == old(index) - {node.key}
    {
      hide Position, Lookup, Without, Linked, Distinct, RemoveAt;
      var i := Position(list, node);
      NodeEntry(node);
      LinkedRemove(list, index, i);
      RemoveAtIndex(list, i);
      RemoveAtIndex(entries, i);
      list, index, entries := RemoveAt(list, i), index - {node.key}, RemoveAt(entries, i);
    }

    /** list_.splice(list_.begin(), list_, it) */
    method MoveToFront(node: Node<K, V>)
      requires Valid() && node in list
      modifies this`list, this`entries
      ensures Valid()
      ensures entries == [Entry(node.key, node.value, node.expire)] + Without(old(entries), node.key)
      ensures |list| == |old(list)| && list[0] == node && (forall n :: n in list ==> n in old(list))
    {
      hide Position, Lookup, Without, Linked, Distinct, RemoveAt;
      var i := Position(list, node);
      NodeEntry(node);
      LinkedFront(list, index, i);
      RemoveAtIndex(list, i);
      RemoveAtIndex(entries, i);
      list, entries := [node] + RemoveAt(list, i), [entries[i]] + RemoveAt(entries, i);
    }

    method Get(key: K, now: nat) returns (result: Option<V>)
      requires Valid()
      modifies this
      ensures Valid()
      ensures result == Hit(old(entries), key, now)
      ensures entries == AfterGet(old(entries), key, now)
      ensures forall n :: n in list ==> n in old(list)
    {
      if key !in index {
        NoNode(key);
        return None;
      }
      var node := index[key];
      NodeEntry(node);
      if node.expire != 0 && now > node.expire {
        EraseNode(node);
        return None;
      }
      MoveToFront(node);
      return Some(node.value);
    }

    /** With capacity 0 the source's loop would evict from the empty list for ever. */
    method Put(key: K, value: V, ttlSeconds: int, now: nat)
      requires Valid() && 1 <= capacity
      modifies this, list
      ensures Valid()
      ensures entries == AfterPut(old(entries), capacity, key, value, ttlSeconds, now)
    {
      hide Position, Lookup, Without, EvictOne;
      var expireTime := ExpireAt(now, ttlSeconds);
      if key in index {
        NodeEntry(index[key]);
        MoveToFront(index[key]);
        Overwrite(value, expireTime);
        return;
      }
      NoNode(key);
      while |list| >= capacity
        invariant Valid() && key !in index
        invariant forall n :: n in list ==> n in old(list)
        invariant entries ==
          if |old(list)| >= capacity && |list| < capacity then EvictOne(old(entries), now) else old(entries)
        decreases |list|
      {
        EvictOneLocked(now);
      }
      PushFront(key, value, expireTime);
    }

    method Overwrite(value: V, expireTime: nat)
      requires Valid() && |list| > 0
      modifies list[0], this`entries
      ensures Valid()
      ensures entries == [Entry(list[0].key, value, expireTime)] + old(entries)[1..]
    {
      list[0].value := value;
      list[0].expire := expireTime;
      entries := [Entry(list[0].key, value, expireTime)] + entries[1..];
    }

    /** list_.emplace_front and map_[key] = list_.begin() */
    method PushFront(key: K, value: V, expireTime: nat)
      requires Valid() && |list| < capacity && key !in index
      modifies this
      ensures Valid()
      ensures entries == [Entry(key, value, expireTime)] + old(entries)
    {
      var node := new Node(key, value, expireTime);
      list, index, entries := [node] + list, index[key := node], [Entry(key, value, expireTime)] + entries;
    }

    method Delete(key: K) returns (deleted: bool)
      requires Valid()
      modifies this
      ensures Valid()
      ensures deleted == Lookup(old(entries), key).Some?
      ensures entries == Without(old(entries), key)
    {
      if key !in index {
        NoNode(key);
        return false;
      }
      NodeEntry(index[key]);
      EraseNode(index[key]);
      return true;
    }

    method Clear()
      requires Valid()
      modifies this
      ensures Valid() && entries == []
    {
      index, list, entries := map[], [], [];
    }

    method Size() returns (size: nat)
      requires Valid()
      ensures size == |entries| <= capacity
    {
      size := |index|;
      IndexSize();
    }

    lemma IndexSize()
      requires Valid()
      ensures |index| == |entries|
    {
      KeysOf(entries, index.Keys);
    }

    method EvictExpired(now: nat) returns (evicted: nat)
      requires Valid()
      modifies this
      ensures Valid()
      ensures entries == Unexpired(old(entries), now)
      ensures evicted == |old(entries)| - |entries|
    {
      hide Linked, Lookup, Without, Distinct, Position;
      evicted := 0;
      var i := 0;
      while i < |list|
        invariant Valid() && i <= |list|
        invariant evicted == |old(entries)| - |entries|
        invariant Unexpired(entries[..i], now) == entries[..i]
        invariant Unexpired(entries, now) == Unexpired(old(entries), now)
        decreases |list| - i
      {
        UnexpiredSplit(entries, i, now);
        if list[i].expire != 0 && now > list[i].expire {
          NodeAt(i);
          ghost var before := entries;
          EraseNode(list[i]);
          assert entries[..i] == before[..i] && entries[i..] == before[i + 1..];
          assert entries == before[..i] + before[i + 1..];
          UnexpiredConcat(before[..i], before[i + 1..], now);
          evicted := evicted + 1;
        } else {
          i := i + 1;
        }
      }
      assert entries[..i] == entries;
    }

    /** The least recently used expired entry goes; without one, the least recently used entry. */
    method EvictOneLocked(now: nat)
      requires Valid()
      modifies this
      ensures Valid()
      ensures entries == EvictOne(old(entries), now)
      ensures |list| == if |old(list)| == 0 then 0 else |old(list)| - 1
      ensures (forall n :: n in list ==> n in old(list)) && index.Keys <= old(index).Keys
    {
      if |list| == 0 { return; }
      var i := |list|;
      while i > 0
        invariant 0 <= i <= |list|
        invariant forall j :: i <= j < |list| ==> !entries[j].Expired(now)
      {
        i := i - 1;
        if list[i].expire != 0 && now > list[i].expire {
          OldestExpiredAt(entries, i, now);
          NodeAt(i);
          EraseNode(list[i]);
          return;
        }
      }
      NodeAt(|list| - 1);
      EraseNode(list[|list| - 1]);
    }
  }

  lemma {:induction false} KeysOf<K, V>(s: seq<Entry<K, V>>, keys: set<K>)
    requires Distinct(s)
    requires forall i :: 0 <= i < |s| ==> s[i].key in keys
    requires forall k :: k in keys ==> exists i :: 0 <= i < |s| && s[i].key == k
    ensures |keys| == |s|
  {
    if s == [] {
      assert keys == {};
    } else {
      var rest := keys - {s[0].key};
      forall k | k in rest
        ensures exists i :: 0 <= i < |s[1..]| && s[1..][i].key == k
      {
        var i :| 0 <= i < |s| && s[i].key == k;
        assert s[1..][i - 1].key == k;
      }
      KeysOf(s[1..], rest);
      assert keys == rest + {s[0].key};
    }
  }

  lemma UnexpiredSplit<K, V>(s: seq<Entry<K, V>>, i: nat, now: nat)
    requires i < |s|
    ensures Unexpired(s, now) == Unexpired(s[..i], now) + Unexpired(s[i..], now)
    ensures Unexpired(s[i..], now) == (if s[i].Expired(now) then [] else [s[i]]) + Unexpired(s[i + 1..], now)
    ensures Unexpired(s[..i + 1], now) == Unexpired(s[..i], now) + if s[i].Expired(now) then [] else [s[i]]
  {
    assert s == s[..i] + s[i..] && s[i..][1..] == s[i + 1..] && s[..i + 1] == s[..i] + [s[i]];
    UnexpiredConcat(s[..i], s[i..], now);
    UnexpiredConcat(s[..i], [s[i]], now);
  }
}
