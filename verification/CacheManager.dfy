/** The objects of src/cache/redis_client.cpp and src/cache/cache_manager.cpp; each method refines its
    step in CacheSpec. Every call is given the one clock reading it makes. */
module CacheManager {
  import opened Wrappers
  import opened LruSpec
  import opened LruCache
  import opened CacheSpec

  class InMemoryRedisClient {
    var connected: bool
    var store: map<string, string>
    var expirations: map<string, nat>

    function Strings(): Store
      reads this
    {
      Store(store, expirations)
    }

    constructor ()
      ensures !connected && Strings() == Store(map[], map[])
    {
      connected, store, expirations := false, map[], map[];
    }

    method Connect() returns (ok: bool)
      modifies this`connected
      ensures ok && connected
    {
      connected := true;
      return true;
    }

    method Set(key: string, value: string, ttlSeconds: int, now: nat) returns (ok: bool)
      modifies this`store, this`expirations
      ensures ok == connected
      ensures Strings() == if ok then old(Strings()).AfterSet(key, value, ttlSeconds, now) else old(Strings())
    {
      if !connected { return false; }
      store := store[key := value];
      if ttlSeconds > 0 {
        expirations := expirations[key := now + ttlSeconds * SECOND];
      }
      return true;
    }

    method Get(key: string, now: nat) returns (value: Option<string>)
      modifies this`store, this`expirations
      ensures value == if connected then old(Strings()).Read(key, now) else None
      ensures Strings() == if connected then old(Strings()).AfterGet(key, now) else old(Strings())
    {
      if !connected { return None; }
      if key in expirations {
        if now > expirations[key] {
          store := store - {key};
          expirations := expirations - {key};
          return None;
        }
      }
      if key in store { return Some(store[key]); }
      return None;
    }

    method Del(key: string) returns (ok: bool)
      modifies this`store, this`expirations
      ensures ok == connected
      ensures Strings() == if ok then old(Strings()).AfterDel(key) else old(Strings())
    {
      if !connected { return false; }
      store := store - {key};
      expirations := expirations - {key};
      return true;
    }
  }

  class CacheManager {
    const local: LRUCache<string, string>
    var redis: InMemoryRedisClient?
    var redisConnected: bool
    var config: Config
    var l1Hits: nat
    var l2Hits: nat
    var misses: nat

    ghost predicate Valid()
      reads this, local, local.list, redis
    {
      && local.Valid()
      && (redisConnected && redis != null ==> redis.connected)
    }

    ghost function State(): Manager
      reads this, local, redis
    {
      Manager(local.entries, local.capacity,
              if redisConnected && redis != null then Some(redis.Strings()) else None,
              config, Stats(l1Hits, l2Hits, misses))
    }

    constructor (localCapacity: nat, defaults: Config)
      ensures Valid() && fresh(local)
      ensures State() == Manager([], localCapacity, None, defaults, Stats(0, 0, 0))
    {
      local := new LRUCache(localCapacity);
      redis, redisConnected, config := null, false, defaults;
      l1Hits, l2Hits, misses := 0, 0, 0;
    }

    /** A configuration without a store leaves an earlier connection as it is; the capacity never changes. */
    method Initialize(newConfig: Config, redisEnabled: bool)
      requires Valid()
      modifies this`config, this`redis, this`redisConnected, local
      ensures Valid()
      ensures redis == old(redis) || fresh(redis)
      ensures State() == old(State()).(l1 := [], config := newConfig,
        l2 := if redisEnabled then Some(Store(map[], map[])) else old(State()).l2)
    {
      config := newConfig;
      local.Clear();
      if redisEnabled {
        redis := new InMemoryRedisClient();
        redisConnected := redis.Connect();
      }
    }

    method Get(key: string, now: nat) returns (result: Option<string>)
      requires Valid() && (1 <= local.capacity || !redisConnected || redis == null)
      modifies this`l1Hits, this`l2Hits, this`misses, local, local.list, redis
      ensures Valid()
      ensures result == GetAnswer(old(State()), key, now)
      ensures State() == DoGet(old(State()), key, now)
    {
      hide Hit, AfterGet, AfterPut;
      var found := local.Get(key, now);
      if found.Some? {
        l1Hits := l1Hits + 1;
        return found;
      }
      if redisConnected && redis != null {
        var value := redis.Get(key, now);
        if value.Some? {
          local.Put(key, value.value, config.localTtl, now);
          l2Hits := l2Hits + 1;
          return value;
        }
      }
      misses := misses + 1;
      return None;
    }

    method Set(key: string, value: string, ttlSeconds: int, now: nat)
      requires Valid() && 1 <= local.capacity
      modifies local, local.list, redis
      ensures Valid()
      ensures State() == DoSet(old(State()), key, value, ttlSeconds, now)
    {
      hide AfterPut;
      var l1Ttl := if ttlSeconds > 0 then ttlSeconds else config.localTtl;
      var l2Ttl := if ttlSeconds > 0 then ttlSeconds else config.redisTtl;
      local.Put(key, value, l1Ttl, now);
      if redisConnected && redis != null {
        var _ := redis.Set(key, value, l2Ttl, now);
      }
    }

    method Delete(key: string) returns (deleted: bool)
      requires Valid()
      modifies local, redis
      ensures Valid()
      ensures deleted == Lookup(old(local.entries), key).Some?
      ensures State() == DoDelete(old(State()), key)
    {
      hide Lookup, Without;
      deleted := local.Delete(key);
      if redisConnected && redis != null {
        var _ := redis.Del(key);
      }
    }

    method Clear()
      requires Valid()
      modifies local
      ensures Valid()
      ensures State() == old(State()).(l1 := [])
    {
      local.Clear();
    }
  }
}
