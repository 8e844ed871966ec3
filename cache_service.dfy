/** The idempotency cache (`CacheServiceImpl`): a Redis keyspace seen as a
    map from prefixed key to value and expiry instant. Every call goes to the
    key with the configured prefix in front; a call the backend fails is
    swallowed (reads give "absent", writes change nothing). The clock is a
    parameter of each call (`getOrCompute` reads it twice: before the read
    and, after the supplier has run, before the write); whether a backend
    call completes is the `Backend` parameter, chosen by the environment. */
module Cache {
  import opened Wrappers

  /** `app.cache.ttl-seconds` when not configured. */
  const DefaultTtlSeconds: int := 10
  /** `app.cache.key-prefix` when not configured. */
  const DefaultKeyPrefix: string := "urlshortener:"

  /** Whether a call to Redis completes or throws. */
  datatype Backend = Available | Unavailable

  /** A stored value and the instant (in seconds) at which it expires. Java's
      `null` is `None`: `put` writes it like any other value (the serializer
      stores it as an empty value), and `get` reads it back as absent. */
  datatype Entry<V> = Entry(value: Option<V>, expiresAt: int)

  /** The supplier handed to `getOrCompute`: it returns a value, possibly
      `null` (`None`), or throws. */
  datatype Computation<V> = Returns(value: Option<V>) | Throws(exception: string)

  class CacheServiceImpl<V> {
    /** The Redis keyspace, by full (prefixed) key. */
    var store: map<string, Entry<V>>
    /** How many times `getOrCompute` has run a supplier. */
    ghost var operationCalls: nat
    const defaultTtl: int
    const keyPrefix: string

    /** The keyspace is Redis's own: it is shared and outlives the service,
        so a new service starts over whatever it already holds. The TTL and
        prefix default to the configuration's fallbacks. */
    constructor (keyspace: map<string, Entry<V>>, ttlSeconds: int := DefaultTtlSeconds,
                 keyPrefix: string := DefaultKeyPrefix)
      ensures store == keyspace && operationCalls == 0
      ensures defaultTtl == ttlSeconds && this.keyPrefix == keyPrefix
    {
      store := keyspace;
      operationCalls := 0;
      defaultTtl := ttlSeconds;
      this.keyPrefix := keyPrefix;
    }

    /** The full key is stored and has not expired at `now`. */
    predicate Live(fullKey: string, now: int)
      reads this
    {
      fullKey in store && now < store[fullKey].expiresAt
    }

    /** `get`: the value under the prefixed key while it is live and not
        `null`; empty when nothing live is stored there, when a stored `null`
        is read, or when the backend fails. */
    function Get(key: string, now: int, backend: Backend): (r: Option<V>)
      reads this
      ensures r.Some? <==>
        backend == Available && Live(keyPrefix + key, now) && store[keyPrefix + key].value.Some?
      ensures r.Some? ==> r == store[keyPrefix + key].value
    {
      if backend.Available? && Live(keyPrefix + key, now) then store[keyPrefix + key].value
      else None
    }

    /** `exists` (`hasKey`): whether the prefixed key is live, whatever it
        holds; false when the backend fails. Every hit of `Get` exists; a key
        that exists but reads as empty holds a `null`. */
    function Exists(key: string, now: int, backend: Backend): (r: bool)
      reads this
      ensures r <==> backend == Available && Live(keyPrefix + key, now)
      ensures Get(key, now, backend).Some? ==> r
      ensures r && Get(key, now, backend).None? ==> store[keyPrefix + key].value.None?
    {
      backend == Available && Live(keyPrefix + key, now)
    }

    /** `put(key, value, ttl)`: store under the prefixed key, visible from
        `now` until `now + ttl`. A failed backend call, or a TTL that is not
        positive, leaves the store as it was. */
    method PutWithTtl(key: string, value: Option<V>, ttl: int, now: int, backend: Backend)
      modifies this`store
      ensures backend == Available && ttl > 0 ==>
        store == old(store)[keyPrefix + key := Entry(value, now + ttl)]
      ensures backend == Unavailable || ttl <= 0 ==> store == old(store)
      ensures backend == Available && ttl > 0 ==>
        forall t :: now <= t < now + ttl ==> Exists(key, t, Available) && Get(key, t, Available) == value
      ensures backend == Available && ttl > 0 ==>
        forall t :: now + ttl <= t ==> !Exists(key, t, Available) && Get(key, t, Available) == None
    {
      if backend == Available && ttl > 0 {
        store := store[keyPrefix + key := Entry(value, now + ttl)];
      }
    }

    /** `put(key, value)`: `put` with the configured default TTL. */
    method Put(key: string, value: Option<V>, now: int, backend: Backend)
      modifies this`store
      ensures backend == Available && defaultTtl > 0 ==>
        store == old(store)[keyPrefix + key := Entry(value, now + defaultTtl)]
      ensures backend == Unavailable || defaultTtl <= 0 ==> store == old(store)
    {
      PutWithTtl(key, value, defaultTtl, now, backend);
    }

    /** `delete`: remove the prefixed key, whatever its expiry; other keys
        stay. A failed backend call changes nothing. */
    method Delete(key: string, backend: Backend)
      modifies this`store
      ensures backend == Available ==> store == old(store) - {keyPrefix + key}
      ensures backend == Unavailable ==> store == old(store)
      ensures backend == Available ==> forall t :: !Exists(key, t, Available) && Get(key, t, Available) == None
    {
      if backend == Available {
        store := store - {keyPrefix + key};
      }
    }

    /** `getOrCompute`: a hit is returned without running the supplier; on a
        miss (nothing live, a stored `null`, or the read failed) the supplier
        runs exactly once, and its value, `null` included, is stored with the
        default TTL and returned. A supplier that throws stores nothing and
        its exception propagates. The read happens at `now`, the write at
        `putNow`, after the supplier has taken its time. */
    method GetOrCompute(key: string, operation: Computation<V>, now: int, putNow: int,
                        getBackend: Backend, putBackend: Backend)
      returns (r: Result<Option<V>, string>)
      requires now <= putNow
      modifies this`store, this`operationCalls
      // hit
      ensures old(Get(key, now, getBackend)).Some? ==>
        r == Ok(old(Get(key, now, getBackend)))
        && store == old(store) && operationCalls == old(operationCalls)
      // miss
      ensures old(Get(key, now, getBackend)).None? ==> operationCalls == old(operationCalls) + 1
      ensures old(Get(key, now, getBackend)).None? && operation.Throws? ==>
        r == Err(operation.exception) && store == old(store)
      ensures old(Get(key, now, getBackend)).None? && operation.Returns? ==>
        r == Ok(operation.value)
        && (putBackend == Available && defaultTtl > 0 ==>
              store == old(store)[keyPrefix + key := Entry(operation.value, putNow + defaultTtl)])
        && (putBackend == Unavailable || defaultTtl <= 0 ==> store == old(store))
      // a hit leaves the key answering at `now`; a computed value that was
      // written answers from the write on, a `null` as a miss
      ensures r.Ok? && old(Get(key, now, getBackend)).Some? ==>
        Get(key, now, Available) == r.value
      ensures r.Ok? && old(Get(key, now, getBackend)).None? && putBackend == Available && defaultTtl > 0 ==>
        Exists(key, putNow, Available) && Get(key, putNow, Available) == r.value
    {
      var cached := Get(key, now, getBackend);
      if cached.Some? {
        return Ok(cached);
      }
      operationCalls := operationCalls + 1;
      match operation
      case Throws(e) =>
        r := Err(e);
      case Returns(v) =>
        Put(key, v, putNow, putBackend);
        r := Ok(v);
    }
  }

  /** Two `getOrCompute` calls with one key, the first on a miss and the
      second inside the default TTL of the first's write (made at `putNow`),
      both reaching the backend. When the first supplier returns a value, the
      second call returns it and runs no supplier, whatever supplier it is
      given. When it returns `null`, the stored `null` reads as a miss, so the
      second call runs its own supplier too. */
  method RepeatedWithinTtl<V>(cache: CacheServiceImpl<V>, key: string, first: Computation<V>, second: Computation<V>,
                              now: int, putNow: int, later: int)
    returns (r1: Result<Option<V>, string>, r2: Result<Option<V>, string>)
    requires cache.defaultTtl > 0 && now <= putNow <= later < putNow + cache.defaultTtl
    requires cache.Get(key, now, Available).None?
    requires first.Returns?
    modifies cache
    ensures r1 == Ok(first.value)
    ensures first.value.Some? ==> r2 == r1 && cache.operationCalls == old(cache.operationCalls) + 1
    ensures first.value.None? ==> cache.operationCalls == old(cache.operationCalls) + 2
    ensures first.value.None? && second.Returns? ==> r2 == Ok(second.value)
    ensures first.value.None? && second.Throws? ==> r2 == Err(second.exception)
  {
    r1 := cache.GetOrCompute(key, first, now, putNow, Available, Available);
    r2 := cache.GetOrCompute(key, second, later, later, Available, Available);
  }
}
