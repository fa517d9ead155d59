/**
  `CacheService` (src/utils/cache.ts): a cache-aside memo of asynchronous
  reads with two tiers, an in-memory map in front of the tab's session
  store, and a per-entry expiry instant checked lazily on read.

  The cache is a state record; `Get` and `Clear` are state transitions. What
  the code cannot see or control is a parameter of the transition:
  - the current time, `now`, is part of the state and moved by `Tick`;
  - the producer's outcome (`fetchFn()` resolving or rejecting) is given;
  - the session store's failures are given as fault flags: in `get`, a
    throwing `getItem`, `removeItem` or `setItem`; in `clear`, a store
    that throws when touched;
  - a session value is an entry, a parsed value with no expiry
    (`NotEntry`), or text that cannot be read as either (`Malformed`).
 */
module Cache {
  import opened Base
  import opened Text

  /** `DEFAULT_TTL`: five minutes, in milliseconds. */
  const DefaultTtl: int := 5 * 60 * 1000

  /** The namespace every session-store key of this cache starts with. */
  const SessionPrefix: string := "kalrav_cache_"

  /** The session-store key under which `key` is persisted. */
  function SessionKey(key: string): (sk: string)
    ensures StartsWith(sk, SessionPrefix) && sk[|SessionPrefix|..] == key
  {
    SessionPrefix + key
  }

  /** `CacheEntry<T>`: the cached value, its creation instant and its expiry instant (ms). */
  datatype Entry<T> = Entry(data: T, timestamp: int, expiry: int)

  /** An entry is served only while the clock is strictly before its expiry. */
  predicate Fresh<T>(e: Entry<T>, now: int) {
    now < e.expiry
  }

  /** A session-store value.
      - `Parsed`: text that parses as an entry.
      - `NotEntry`: text that parses to a value without an `expiry` field
        (a number, `true`, `[]`, `{}`, a string). `now < expiry` is false
        for it, so `get` removes it like a stale entry.
      - `Malformed`: text on which the read throws before the expiry test
        (it does not parse, or it is `null`), and the empty string, which
        `get` treats as absent. `get` leaves it in place. */
  datatype Stored<T> = Parsed(entry: Entry<T>) | NotEntry | Malformed

  /** Both tiers and the clock. The session map holds every key of the tab's
      session store, including keys this cache did not write. */
  datatype Cache<T> = Cache(memory: map<string, Entry<T>>, session: map<string, Stored<T>>, now: int)

  /** What a producer, and `Get` itself, settles with: a value or a thrown error. */
  datatype Outcome<T> = Success(value: T) | Failure(error: string)

  /** Which session-store calls throw during one `Get`. A throwing read or
      removal is caught and lookup falls through to the producer; a throwing
      write is swallowed. */
  datatype StorageFaults = StorageFaults(readFails: bool, removeFails: bool, writeFails: bool)

  /** No session-store call throws. */
  const NoFaults := StorageFaults(false, false, false)

  /** The result of one `Get`: the new state, what the caller receives, and
      whether the producer was invoked. */
  datatype Step<T> = Step(cache: Cache<T>, reply: Outcome<T>, fetched: bool)

  /** An empty cache at time `now` (a fresh tab). */
  function Empty<T>(now: int): (c: Cache<T>)
    ensures c.memory == map[] && c.session == map[] && c.now == now
  {
    Cache(map[], map[], now)
  }

  /** The clock moves forward by `ms` milliseconds; nothing is evicted eagerly. */
  function Tick<T>(c: Cache<T>, ms: nat): (r: Cache<T>)
    ensures r.memory == c.memory && r.session == c.session && r.now >= c.now
  {
    c.(now := c.now + ms)
  }

  /** A page reload: the memory tier is lost, the session tier survives. */
  function Reload<T>(c: Cache<T>): (r: Cache<T>)
    ensures r.memory == map[] && r.session == c.session && r.now == c.now
  {
    c.(memory := map[])
  }

  /** The session entry for `key`, if the read succeeds and the text parses. */
  function ReadSession<T>(c: Cache<T>, key: string, faults: StorageFaults): Option<Entry<T>>
  {
    var sk := SessionKey(key);
    if !faults.readFails && sk in c.session && c.session[sk].Parsed? then Some(c.session[sk].entry)
    else None
  }

  /** The read succeeds and finds a value `get` removes: a stale entry, or
      a parsed value with no expiry. */
  predicate SessionExpired<T>(c: Cache<T>, key: string, faults: StorageFaults)
  {
    var sk := SessionKey(key);
    && !faults.readFails && sk in c.session
    && (c.session[sk].NotEntry? || (c.session[sk].Parsed? && !Fresh(c.session[sk].entry, c.now)))
  }

  /** Step 3 of `get`: invoke the producer. On success a new entry stamped
      with the call's entry time is stored in memory and, unless the write
      throws, in the session store; on failure nothing is stored and the
      error is passed on. */
  function Fill<T>(c: Cache<T>, key: string, ttl: int, fetch: Outcome<T>, writeFails: bool): (r: Step<T>)
  {
    match fetch
    case Failure(err) => Step(c, Failure(err), true)
    case Success(v) =>
      var e := Entry(v, c.now, c.now + ttl);
      var session := if writeFails then c.session else c.session[SessionKey(key) := Parsed(e)];
      Step(Cache(c.memory[key := e], session, c.now), Success(v), true)
  }

  /** `CacheService.get(key, fetchFn, ttl)`.
      1. A fresh memory entry is returned as is.
      2. A stale memory entry is deleted.
      3. A fresh session entry is copied into memory and returned; a stale
         one, or a parsed value with no expiry, is removed from the session
         store.
      4. Otherwise the producer runs (`Fill`). */
  function Get<T>(c: Cache<T>, key: string, ttl: int, fetch: Outcome<T>, faults: StorageFaults): (r: Step<T>)
    // Only the producer can make `get` fail, and its error is passed on verbatim.
    ensures r.reply.Failure? ==> r.fetched && r.reply == fetch
    ensures r.fetched && fetch.Success? ==> r.reply == fetch
    // After a successful call the memory tier holds the value that was returned.
    ensures r.reply.Success? ==> key in r.cache.memory && r.cache.memory[key].data == r.reply.value
    // After a failed call the key is absent from memory and nothing new is in the session store.
    ensures r.reply.Failure? ==> key !in r.cache.memory
    ensures r.reply.Failure? && SessionKey(key) in r.cache.session ==>
              SessionKey(key) in c.session && r.cache.session[SessionKey(key)] == c.session[SessionKey(key)]
    // Nothing but the key's own slots changes, and the clock does not move.
    ensures r.cache.memory - {key} == c.memory - {key}
    ensures r.cache.session - {SessionKey(key)} == c.session - {SessionKey(key)}
    ensures r.cache.now == c.now
  {
    if key in c.memory && Fresh(c.memory[key], c.now) then
      Step(c, Success(c.memory[key].data), false)
    else
      var memory := c.memory - {key};
      var read := ReadSession(c, key, faults);
      if read.Some? && Fresh(read.value, c.now) then
        Step(Cache(memory[key := read.value], c.session, c.now), Success(read.value.data), false)
      else
        var evict := SessionExpired(c, key, faults) && !faults.removeFails;
        var session := if evict then c.session - {SessionKey(key)} else c.session;
        Fill(Cache(memory, session, c.now), key, ttl, fetch, faults.writeFails)
  }

  /** `CacheService.clear(prefix)`. Without a prefix (absent or empty) both
      tiers are emptied, the session store entirely. With a prefix `p`, the
      memory keys starting with `p` and the session keys starting with
      `"kalrav_cache_" + p` are removed, and every other key is kept. */
  function Clear<T>(c: Cache<T>, prefix: Option<string>): (r: Cache<T>)
    ensures r.now == c.now
    ensures prefix.None? || prefix == Some([]) ==> r.memory == map[] && r.session == map[]
    ensures prefix.Some? && prefix.value != [] ==>
              && (forall k :: k in r.memory <==> k in c.memory && !StartsWith(k, prefix.value))
              && (forall k :: k in r.session <==> k in c.session && !StartsWith(k, SessionKey(prefix.value)))
    ensures forall k :: k in r.memory ==> k in c.memory && r.memory[k] == c.memory[k]
    ensures forall k :: k in r.session ==> k in c.session && r.session[k] == c.session[k]
  {
    match prefix
    case None => Cache(map[], map[], c.now)
    case Some(p) =>
      if p == [] then Cache(map[], map[], c.now)
      else
        var sp := SessionKey(p);
        Cache(map k | k in c.memory && !StartsWith(k, p) :: c.memory[k],
              map k | k in c.session && !StartsWith(k, sp) :: c.session[k],
              c.now)
  }

  /** What `clear` leaves, and whether it threw. */
  datatype ClearOutcome<T> = ClearOutcome(cache: Cache<T>, threw: bool)

  /** `CacheService.clear(prefix)` when the session store may be unusable
      (`storeFails`: touching `sessionStorage` throws). The memory tier is
      cleared first in both branches, so a throwing store still loses the
      matching memory entries, keeps every session key, and the error
      reaches the caller. */
  function ClearWithFaults<T>(c: Cache<T>, prefix: Option<string>, storeFails: bool): (r: ClearOutcome<T>)
    ensures r.threw == storeFails && r.cache.now == c.now
    ensures r.cache.memory == Clear(c, prefix).memory
    ensures !storeFails ==> r.cache == Clear(c, prefix)
    ensures storeFails ==> r.cache.session == c.session
  {
    var cleared := Clear(c, prefix);
    if storeFails then ClearOutcome(cleared.(session := c.session), true)
    else ClearOutcome(cleared, false)
  }

  // ---------------------------------------------------------------------------
  // The branches of `get`, one lemma each.
  // ---------------------------------------------------------------------------

  /** A fresh memory entry is returned as is: no fetch, and neither tier
      changes. Freshness is strict. */
  lemma MemoryHit<T>(c: Cache<T>, key: string, ttl: int, fetch: Outcome<T>, faults: StorageFaults)
    requires key in c.memory && c.now < c.memory[key].expiry
    ensures Get(c, key, ttl, fetch, faults) == Step(c, Success(c.memory[key].data), false)
  {
  }

  /** A stale memory entry is deleted before lookup continues: `get` then
      behaves exactly as if the memory tier had never held the key, so the
      stale data is never served, and unless the lookup ends by promoting or
      fetching a new entry, the key is gone. */
  lemma StaleMemoryEvicted<T>(c: Cache<T>, key: string, ttl: int, fetch: Outcome<T>, faults: StorageFaults)
    requires key in c.memory && c.now >= c.memory[key].expiry
    ensures Get(c, key, ttl, fetch, faults) == Get(c.(memory := c.memory - {key}), key, ttl, fetch, faults)
    ensures var r := Get(c, key, ttl, fetch, faults);
            key in r.cache.memory ==> r.cache.memory[key] != c.memory[key] || r.reply.Success?
    ensures var r := Get(c, key, ttl, fetch, faults);
            r.reply.Failure? ==> key !in r.cache.memory
  {
    assert (c.memory - {key}) - {key} == c.memory - {key};
  }

  /** A fresh session entry is copied into memory and its data returned
      without a fetch; the session store is left as it was. */
  lemma SessionHit<T>(c: Cache<T>, key: string, ttl: int, fetch: Outcome<T>, faults: StorageFaults)
    requires !(key in c.memory && Fresh(c.memory[key], c.now))
    requires !faults.readFails
    requires SessionKey(key) in c.session && c.session[SessionKey(key)].Parsed?
    requires Fresh(c.session[SessionKey(key)].entry, c.now)
    ensures var e := c.session[SessionKey(key)].entry;
            var r := Get(c, key, ttl, fetch, faults);
            && r.reply == Success(e.data) && !r.fetched
            && r.cache.memory == c.memory[key := e]
            && r.cache.session == c.session
  {
  }

  /** A stale session entry is removed from the session store (unless the
      removal throws) and the producer runs. */
  lemma StaleSessionEvicted<T>(c: Cache<T>, key: string, ttl: int, fetch: Outcome<T>, faults: StorageFaults)
    requires !(key in c.memory && Fresh(c.memory[key], c.now))
    requires !faults.readFails && !faults.removeFails
    requires SessionKey(key) in c.session && c.session[SessionKey(key)].Parsed?
    requires !Fresh(c.session[SessionKey(key)].entry, c.now)
    ensures var r := Get(c, key, ttl, fetch, faults);
            && r.fetched
            && (fetch.Failure? || faults.writeFails ==> SessionKey(key) !in r.cache.session)
  {
  }

  /** A parsed session value with no expiry is handled like a stale entry:
      it is removed from the session store (unless the removal throws) and
      the producer runs. */
  lemma NotEntrySessionEvicted<T>(c: Cache<T>, key: string, ttl: int, fetch: Outcome<T>, faults: StorageFaults)
    requires !(key in c.memory && Fresh(c.memory[key], c.now))
    requires !faults.readFails && !faults.removeFails
    requires SessionKey(key) in c.session && c.session[SessionKey(key)].NotEntry?
    ensures var r := Get(c, key, ttl, fetch, faults);
            && r.fetched
            && (fetch.Failure? || faults.writeFails ==> SessionKey(key) !in r.cache.session)
  {
  }

  /** A session value on which the read throws (unparseable text, `null`)
      or the empty string falls through to the producer and is left in
      place when the producer fails or the write-back throws. */
  lemma MalformedSessionFallsThrough<T>(c: Cache<T>, key: string, ttl: int, fetch: Outcome<T>, faults: StorageFaults)
    requires !(key in c.memory && Fresh(c.memory[key], c.now))
    requires SessionKey(key) in c.session && c.session[SessionKey(key)].Malformed?
    ensures var r := Get(c, key, ttl, fetch, faults);
            && r.fetched
            && (fetch.Failure? || faults.writeFails ==> r.cache.session == c.session)
  {
  }

  /** On a miss with a successful producer the stored entry carries the data,
      `timestamp = now` and `expiry = now + ttl`; it is written to memory and,
      unless the write throws, to the session store, and the data is returned.
      A throwing session write does not change what the caller receives. */
  lemma MissFills<T>(c: Cache<T>, key: string, ttl: int, v: T, faults: StorageFaults)
    requires !(key in c.memory && Fresh(c.memory[key], c.now))
    requires ReadSession(c, key, faults).None? || !Fresh(ReadSession(c, key, faults).value, c.now)
    ensures var r := Get(c, key, ttl, Success(v), faults);
            var e := Entry(v, c.now, c.now + ttl);
            && r.reply == Success(v) && r.fetched
            && key in r.cache.memory && r.cache.memory[key] == e
            && (!faults.writeFails ==> SessionKey(key) in r.cache.session && r.cache.session[SessionKey(key)] == Parsed(e))
  {
  }

  /** A failing producer's error is rethrown and no entry is written to either tier. */
  lemma FailureNotCached<T>(c: Cache<T>, key: string, ttl: int, err: string, faults: StorageFaults)
    requires !(key in c.memory && Fresh(c.memory[key], c.now))
    requires ReadSession(c, key, faults).None? || !Fresh(ReadSession(c, key, faults).value, c.now)
    ensures var r := Get(c, key, ttl, Failure(err), faults);
            && r.reply == Failure(err) && r.fetched
            && r.cache.memory == c.memory - {key}
            && r.cache.session.Keys <= c.session.Keys
  {
  }

  /** An entry written with a non-positive ttl is never served: the next call
      at the same instant invokes the producer again. */
  lemma NonPositiveTtlNeverHits<T>(c: Cache<T>, key: string, ttl: int, v: T, fetch2: Outcome<T>)
    requires ttl <= 0
    requires !(key in c.memory && Fresh(c.memory[key], c.now))
    requires ReadSession(c, key, NoFaults).None? || !Fresh(ReadSession(c, key, NoFaults).value, c.now)
    ensures var r1 := Get(c, key, ttl, Success(v), NoFaults);
            Get(r1.cache, key, ttl, fetch2, NoFaults).fetched
  {
    var r1 := Get(c, key, ttl, Success(v), NoFaults);
    MissFills(c, key, ttl, v, NoFaults);
    assert r1.cache.session[SessionKey(key)] == Parsed(Entry(v, c.now, c.now + ttl));
  }

  // ---------------------------------------------------------------------------
  // Sequences of calls.
  // ---------------------------------------------------------------------------

  /** Freshness: after a successful `get`, a second `get` of the same key
      before the entry expires returns the first value without invoking the
      second producer. */
  lemma SecondGetWithinTtlHits<T>(c: Cache<T>, key: string, ttl: int, fetch1: Outcome<T>, faults1: StorageFaults,
                                  wait: nat, fetch2: Outcome<T>, faults2: StorageFaults)
    requires fetch1.Success?
    requires var r1 := Get(c, key, ttl, fetch1, faults1);
             r1.fetched && wait < ttl
    ensures var r1 := Get(c, key, ttl, fetch1, faults1);
            var r2 := Get(Tick(r1.cache, wait), key, ttl, fetch2, faults2);
            r2.reply == r1.reply && !r2.fetched && r2.cache == Tick(r1.cache, wait)
  {
    var r1 := Get(c, key, ttl, fetch1, faults1);
    assert r1.cache.memory[key] == Entry(fetch1.value, c.now, c.now + ttl);
  }

  /** Expiry: once `ttl` has elapsed since a fill, the next `get` (with a
      working session store) invokes the producer, returns its value and
      caches it. */
  lemma GetAfterTtlRefetches<T>(c: Cache<T>, key: string, ttl: int, v1: T, wait: nat, v2: T)
    requires !(key in c.memory && Fresh(c.memory[key], c.now))
    requires ReadSession(c, key, NoFaults).None? || !Fresh(ReadSession(c, key, NoFaults).value, c.now)
    requires wait >= ttl
    ensures var r1 := Get(c, key, ttl, Success(v1), NoFaults);
            var r2 := Get(Tick(r1.cache, wait), key, ttl, Success(v2), NoFaults);
            && r2.fetched && r2.reply == Success(v2)
            && r2.cache.memory[key] == Entry(v2, c.now + wait, c.now + wait + ttl)
  {
    var r1 := Get(c, key, ttl, Success(v1), NoFaults);
    MissFills(c, key, ttl, v1, NoFaults);
    var c2 := Tick(r1.cache, wait);
    assert c2.session[SessionKey(key)] == Parsed(Entry(v1, c.now, c.now + ttl));
    StaleSessionEvicted(c2, key, ttl, Success(v2), NoFaults);
  }

  /** Persistence across a reload: a value filled with a working session
      store survives the loss of the memory tier; within the ttl it is
      returned without a fetch and the memory tier is repopulated. */
  lemma SurvivesReload<T>(c: Cache<T>, key: string, ttl: int, v: T, wait: nat, fetch2: Outcome<T>)
    requires !(key in c.memory && Fresh(c.memory[key], c.now))
    requires ReadSession(c, key, NoFaults).None? || !Fresh(ReadSession(c, key, NoFaults).value, c.now)
    requires wait < ttl
    ensures var r1 := Get(c, key, ttl, Success(v), NoFaults);
            var r2 := Get(Tick(Reload(r1.cache), wait), key, ttl, fetch2, NoFaults);
            && !r2.fetched && r2.reply == Success(v)
            && r2.cache.memory == map[key := Entry(v, c.now, c.now + ttl)]
  {
    MissFills(c, key, ttl, v, NoFaults);
  }

  /** Failure is not cached: after a failing `get` that could read the
      session store (whether or not removing a stale entry threw), a later
      `get` of the same key invokes its producer. */
  lemma FailureThenRefetch<T>(c: Cache<T>, key: string, ttl: int, err: string, faults1: StorageFaults,
                              wait: nat, fetch2: Outcome<T>, faults2: StorageFaults)
    requires !faults1.readFails
    requires var r1 := Get(c, key, ttl, Failure(err), faults1);
             r1.reply.Failure?
    ensures var r1 := Get(c, key, ttl, Failure(err), faults1);
            Get(Tick(r1.cache, wait), key, ttl, fetch2, faults2).fetched
  {
  }

  /** The competitions scenario: two reads of `"competitions_v1"` with a one
      minute ttl, less than a minute apart, on an empty cache, produce one
      backend call and the same value twice. */
  lemma CompetitionsScenario<T>(now: int, rows: T, wait: nat, fetch2: Outcome<T>, faults1: StorageFaults, faults2: StorageFaults)
    requires wait < 60000
    ensures var r1 := Get(Empty<T>(now), "competitions_v1", 60000, Success(rows), faults1);
            var r2 := Get(Tick(r1.cache, wait), "competitions_v1", 60000, fetch2, faults2);
            && r1.fetched && r1.reply == Success(rows)
            && !r2.fetched && r2.reply == Success(rows)
  {
    var r1 := Get(Empty<T>(now), "competitions_v1", 60000, Success(rows), faults1);
    SecondGetWithinTtlHits(Empty<T>(now), "competitions_v1", 60000, Success(rows), faults1, wait, fetch2, faults2);
  }

  /** A caller that passes no ttl gets `DEFAULT_TTL`: on an empty cache a
      value is served from memory for just under five minutes, and at five
      minutes the producer runs again. */
  lemma DefaultTtlScenario<T>(now: int, key: string, v1: T, wait: nat, v2: T)
    ensures DefaultTtl == 300000
    ensures var r1 := Get(Empty<T>(now), key, DefaultTtl, Success(v1), NoFaults);
            var r2 := Get(Tick(r1.cache, wait), key, DefaultTtl, Success(v2), NoFaults);
            && r1.fetched
            && (wait < 300000 ==> !r2.fetched && r2.reply == Success(v1))
            && (wait >= 300000 ==> r2.fetched && r2.reply == Success(v2))
  {
    var c := Empty<T>(now);
    if wait < DefaultTtl {
      SecondGetWithinTtlHits(c, key, DefaultTtl, Success(v1), NoFaults, wait, Success(v2), NoFaults);
    } else {
      GetAfterTtlRefetches(c, key, DefaultTtl, v1, wait, v2);
    }
  }

  // ---------------------------------------------------------------------------
  // `clear` and `get` together.
  // ---------------------------------------------------------------------------

  /** A key starts with a prefix exactly when its session key starts with the
      prefix's session key: the two prefix rules of `clear` agree. */
  lemma SessionKeyPrefix(key: string, p: string)
    ensures StartsWith(key, p) <==> StartsWith(SessionKey(key), SessionKey(p))
  {
    var n := |SessionPrefix|;
    if StartsWith(SessionKey(key), SessionKey(p)) {
      assert SessionKey(key)[n..n + |p|] == key[..|p|];
      assert SessionKey(p)[n..] == p;
    }
    if StartsWith(key, p) {
      assert SessionKey(key)[..n + |p|] == SessionPrefix + key[..|p|];
    }
  }

  /** After `clear(p)`, a key starting with `p` is gone from both tiers, so
      the next `get` of it invokes its producer. */
  lemma ClearedKeyRefetches<T>(c: Cache<T>, prefix: Option<string>, key: string, ttl: int, fetch: Outcome<T>, faults: StorageFaults)
    requires prefix.Some? ==> StartsWith(key, prefix.value)
    ensures Get(Clear(c, prefix), key, ttl, fetch, faults).fetched
  {
    if prefix.Some? && prefix.value != [] {
      SessionKeyPrefix(key, prefix.value);
    }
  }

  /** A `clear` that threw on the session store leaves the key's session
      entry behind: while it is fresh and readable, the next `get` returns
      it without invoking the producer, although the memory tier was
      emptied for the key. */
  lemma FailedClearStillServesSession<T>(c: Cache<T>, prefix: Option<string>, key: string, ttl: int,
                                         fetch: Outcome<T>, faults: StorageFaults)
    requires prefix.Some? ==> StartsWith(key, prefix.value)
    requires !faults.readFails
    requires SessionKey(key) in c.session && c.session[SessionKey(key)].Parsed?
    requires Fresh(c.session[SessionKey(key)].entry, c.now)
    ensures var r := Get(ClearWithFaults(c, prefix, true).cache, key, ttl, fetch, faults);
            !r.fetched && r.reply == Success(c.session[SessionKey(key)].entry.data)
  {
    var d := ClearWithFaults(c, prefix, true).cache;
    assert key !in d.memory;
  }

  /** Retrying a `clear` that threw on the session store reaches the state a
      successful `clear` would have. */
  lemma RetryAfterFailedClear<T>(c: Cache<T>, prefix: Option<string>)
    ensures Clear(ClearWithFaults(c, prefix, true).cache, prefix) == Clear(c, prefix)
  {
    var d := ClearWithFaults(c, prefix, true).cache;
    var r1 := Clear(d, prefix);
    var r2 := Clear(c, prefix);
    assert r1.memory == r2.memory;
    assert r1.session == r2.session;
  }

  /** After `clear(p)`, a key not starting with `p` behaves exactly as before
      the clear: same reply, same producer use, same slots for the key. */
  lemma ClearKeepsOtherKeys<T>(c: Cache<T>, p: string, key: string, ttl: int, fetch: Outcome<T>, faults: StorageFaults)
    requires p != [] && !StartsWith(key, p)
    ensures var before := Get(c, key, ttl, fetch, faults);
            var after := Get(Clear(c, Some(p)), key, ttl, fetch, faults);
            && after.reply == before.reply && after.fetched == before.fetched
            && (key in after.cache.memory <==> key in before.cache.memory)
            && (key in after.cache.memory ==> after.cache.memory[key] == before.cache.memory[key])
  {
    SessionKeyPrefix(key, p);
    var c' := Clear(c, Some(p));
    assert key in c'.memory <==> key in c.memory;
    assert SessionKey(key) in c'.session <==> SessionKey(key) in c.session;
    GetLocal(c, c', key, ttl, fetch, faults);
  }

  /** `Get` on `key` looks only at the key's own slots and the clock: two
      caches that agree there give the same reply, use the producer alike
      and leave the same memory slot for the key. */
  lemma GetLocal<T>(c1: Cache<T>, c2: Cache<T>, key: string, ttl: int, fetch: Outcome<T>, faults: StorageFaults)
    requires c1.now == c2.now
    requires key in c1.memory <==> key in c2.memory
    requires key in c1.memory ==> c1.memory[key] == c2.memory[key]
    requires SessionKey(key) in c1.session <==> SessionKey(key) in c2.session
    requires SessionKey(key) in c1.session ==> c1.session[SessionKey(key)] == c2.session[SessionKey(key)]
    ensures var r1 := Get(c1, key, ttl, fetch, faults);
            var r2 := Get(c2, key, ttl, fetch, faults);
            && r1.reply == r2.reply && r1.fetched == r2.fetched
            && (key in r1.cache.memory <==> key in r2.cache.memory)
            && (key in r1.cache.memory ==> r1.cache.memory[key] == r2.cache.memory[key])
  {
    assert ReadSession(c1, key, faults) == ReadSession(c2, key, faults);
  }

  /** The prefix-clear scenario: with `"a_1"`, `"a_2"` and `"b_1"` filled,
      `clear("a_")` removes the first two from both tiers and `"b_1"` is
      still served without a fetch. */
  lemma PrefixClearScenario<T>(c: Cache<T>, fetch: Outcome<T>, faults: StorageFaults)
    requires "b_1" in c.memory && Fresh(c.memory["b_1"], c.now)
    ensures var r := Clear(c, Some("a_"));
            && "a_1" !in r.memory && "a_2" !in r.memory
            && SessionKey("a_1") !in r.session && SessionKey("a_2") !in r.session
            && !Get(r, "b_1", 60000, fetch, faults).fetched
  {
    var r := Clear(c, Some("a_"));
    assert "b_1"[..2][0] != "a_"[0];
    assert StartsWith("a_1", "a_") && StartsWith("a_2", "a_") && !StartsWith("b_1", "a_");
    SessionKeyPrefix("a_1", "a_");
    SessionKeyPrefix("a_2", "a_");
    assert "b_1" in r.memory;
  }

  // ---------------------------------------------------------------------------
  // An invariant every operation keeps.
  // ---------------------------------------------------------------------------

  /** Every entry in either tier was created no later than the clock and
      expires no earlier than it was created. */
  predicate WellFormedEntry<T>(e: Entry<T>, now: int) {
    e.timestamp <= e.expiry && e.timestamp <= now
  }

  predicate WellFormed<T>(c: Cache<T>) {
    && (forall k :: k in c.memory ==> WellFormedEntry(c.memory[k], c.now))
    && (forall k :: k in c.session && c.session[k].Parsed? ==> WellFormedEntry(c.session[k].entry, c.now))
  }

  /** `get` with a non-negative ttl, `clear` and the passage of time keep the
      cache well formed. */
  lemma GetKeepsWellFormed<T>(c: Cache<T>, key: string, ttl: int, fetch: Outcome<T>, faults: StorageFaults)
    requires WellFormed(c) && ttl >= 0
    ensures WellFormed(Get(c, key, ttl, fetch, faults).cache)
  {
    var r := Get(c, key, ttl, fetch, faults);
    forall k | k in r.cache.memory
      ensures WellFormedEntry(r.cache.memory[k], r.cache.now)
    {
      if k != key {
        assert k in (r.cache.memory - {key});
      }
    }
    forall k | k in r.cache.session && r.cache.session[k].Parsed?
      ensures WellFormedEntry(r.cache.session[k].entry, r.cache.now)
    {
      if k != SessionKey(key) {
        assert k in (r.cache.session - {SessionKey(key)});
      }
    }
  }

  lemma ClearKeepsWellFormed<T>(c: Cache<T>, prefix: Option<string>)
    requires WellFormed(c)
    ensures WellFormed(Clear(c, prefix))
  {
  }

  lemma TickKeepsWellFormed<T>(c: Cache<T>, ms: nat)
    requires WellFormed(c)
    ensures WellFormed(Tick(c, ms))
  {
  }
}
