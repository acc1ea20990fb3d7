/** The in-memory cache of `src/cache/inMemoryCache.ts`: entries expire, and a full cache evicts the
    least recently used one. Every call of the clock yields a later reading. */
module TtlLruCache {
  import opened FiniteSets
  import opened Results

  datatype Entry<V> = Entry(value: V, createdAt: int, expiresAt: int, lastAccessedAt: int)

  type Store<V> = map<string, Entry<V>>

  function Until(now: int, ttl: int): int {
    now + ttl
  }

  // ---------------------------------------------------------------- what callers did

  datatype Event<V> =
    | Stored(key: string, value: V, expiresAt: int)
    | Hit(key: string)
    | Invalidated(key: string)
    | InvalidatedPrefix(prefix: string)
    | Cleared

  predicate Drops<V>(e: Event<V>, key: string) {
    match e
    case Invalidated(k) => k == key
    case InvalidatedPrefix(prefix) => prefix <= key
    case Cleared => true
    case _ => false
  }

  predicate Touches<V>(e: Event<V>) {
    e.Stored? || e.Hit?
  }

  /** The value and expiry last stored under the key and not invalidated since. */
  function Latest<V>(log: seq<Event<V>>, key: string): Option<(V, int)> {
    if log == [] then None
    else
      var e := log[|log| - 1];
      if e.Stored? && e.key == key then Some((e.value, e.expiresAt))
      else if Drops(e, key) then None
      else Latest(log[..|log| - 1], key)
  }

  /** The other keys stored or hit since the key itself was. */
  function Since<V>(log: seq<Event<V>>, key: string): set<string> {
    if log == [] then {}
    else
      var e := log[|log| - 1];
      var rest := Since(log[..|log| - 1], key);
      if !Touches(e) then rest
      else if e.key == key then {}
      else rest + {e.key}
  }

  predicate EmptyKeyStored<V>(log: seq<Event<V>>) {
    log != [] && (EmptyKeyStored(log[..|log| - 1]) || (log[|log| - 1].Stored? && log[|log| - 1].key == ""))
  }

  // ---------------------------------------------------------------- the invariant

  ghost predicate Truthful<V>(store: Store<V>, log: seq<Event<V>>, now: int) {
    forall k {:trigger Latest(log, k)} :: k in store ==>
      Latest(log, k) == Some((store[k].value, store[k].expiresAt)) && store[k].lastAccessedAt <= now
  }

  ghost predicate TimesDiffer<V>(store: Store<V>) {
    forall j, k :: j in store && k in store && j != k ==> store[j].lastAccessedAt != store[k].lastAccessedAt
  }

  /** Later accesses in the store are accesses since. */
  ghost predicate Ordered<V>(store: Store<V>, log: seq<Event<V>>) {
    && TimesDiffer(store)
    && forall j, k {:trigger j in store, Since(log, k)} ::
         j in store && k in store && store[j].lastAccessedAt > store[k].lastAccessedAt ==> j in Since(log, k)
  }

  /** A key that should be there is missing only if it expired or enough others were used since. */
  ghost predicate LostFairly<V>(store: Store<V>, log: seq<Event<V>>, now: int, maxEntries: nat) {
    forall k {:trigger Latest(log, k)} :: k !in store && Latest(log, k).Some? ==>
      Latest(log, k).value.1 <= now || |Since(log, k)| >= maxEntries
  }

  ghost predicate Inv<V>(store: Store<V>, log: seq<Event<V>>, now: int, maxEntries: nat) {
    && Truthful(store, log, now)
    && Ordered(store, log)
    && LostFairly(store, log, now, maxEntries)
    && (!EmptyKeyStored(log) ==> |store| <= maxEntries && "" !in store)
  }

  // ---------------------------------------------------------------- one more event

  lemma LogGrows<V>(log: seq<Event<V>>, e: Event<V>, key: string)
    ensures Latest(log + [e], key) ==
            if e.Stored? && e.key == key then Some((e.value, e.expiresAt))
            else if Drops(e, key) then None
            else Latest(log, key)
    ensures Since(log + [e], key) ==
            if !Touches(e) then Since(log, key) else if e.key == key then {} else Since(log, key) + {e.key}
  {
    assert (log + [e])[..|log|] == log;
  }

  lemma EmptyKeyGrows<V>(log: seq<Event<V>>, e: Event<V>)
    ensures EmptyKeyStored(log + [e]) <==> EmptyKeyStored(log) || (e.Stored? && e.key == "")
  {
    assert (log + [e])[..|log|] == log;
  }

  // ---------------------------------------------------------------- steps

  ghost predicate ExpiredBy<V>(store: Store<V>, gone: set<string>, now: int) {
    forall k :: k in gone ==> k in store && store[k].expiresAt <= now
  }

  /** Every entry left is as it was. */
  ghost predicate Within<V>(part: Store<V>, store: Store<V>) {
    forall k :: k in part ==> k in store && part[k] == store[k]
  }

  lemma PartIsOrdered<V>(part: Store<V>, store: Store<V>, log: seq<Event<V>>)
    requires Within(part, store) && Ordered(store, log)
    ensures Ordered(part, log)
  {
    forall j, k | j in part && k in part && part[j].lastAccessedAt > part[k].lastAccessedAt
      ensures j in Since(log, k)
    {
      assert j in store;
    }
  }

  lemma PartIsTruthful<V>(part: Store<V>, store: Store<V>, log: seq<Event<V>>, now: int, later: int)
    requires Within(part, store) && Truthful(store, log, now) && now <= later
    ensures Truthful(part, log, later)
  {
    forall k | k in part
      ensures Latest(log, k) == Some((part[k].value, part[k].expiresAt)) && part[k].lastAccessedAt <= later
    {
      assert k in store && Latest(log, k).Some?;
    }
  }

  lemma PartIsSmall<V>(part: Store<V>, store: Store<V>)
    requires Within(part, store)
    ensures |part| <= |store|
  {
    assert part.Keys <= store.Keys;
    SubsetSize(part.Keys, store.Keys);
  }

  lemma ExpiryIsFair<V>(store: Store<V>, log: seq<Event<V>>, now: int, maxEntries: nat, gone: set<string>, later: int)
    requires Truthful(store, log, now) && LostFairly(store, log, now, maxEntries) && now <= later &&
             ExpiredBy(store, gone, later)
    ensures LostFairly(store - gone, log, later, maxEntries)
  {
  }

  lemma ExpiryKeepsInv<V>(store: Store<V>, log: seq<Event<V>>, now: int, maxEntries: nat, gone: set<string>, later: int)
    requires Inv(store, log, now, maxEntries) && now <= later && ExpiredBy(store, gone, later)
    ensures Inv(store - gone, log, later, maxEntries)
  {
    PartIsOrdered(store - gone, store, log);
    PartIsTruthful(store - gone, store, log, now, later);
    PartIsSmall(store - gone, store);
    ExpiryIsFair(store, log, now, maxEntries, gone, later);
  }

  function Touch<V>(store: Store<V>, key: string, t: int): Store<V>
    requires key in store
  {
    store[key := store[key].(lastAccessedAt := t)]
  }

  /** Touching one key adds it to what happened since every other. */
  ghost predicate Touched<V>(log: seq<Event<V>>, log': seq<Event<V>>, key: string) {
    && (forall k :: Since(log', k) == if k == key then {} else Since(log, k) + {key})
    && (forall k :: k != key ==> Latest(log', k) == Latest(log, k))
  }

  lemma TouchGrows<V>(log: seq<Event<V>>, e: Event<V>)
    requires Touches(e)
    ensures Touched(log, log + [e], e.key)
    ensures Latest(log + [e], e.key) == if e.Stored? then Some((e.value, e.expiresAt)) else Latest(log, e.key)
  {
    forall k
      ensures Since(log + [e], k) == if k == e.key then {} else Since(log, k) + {e.key}
      ensures k != e.key ==> Latest(log + [e], k) == Latest(log, k)
    {
      LogGrows(log, e, k);
    }
    LogGrows(log, e, e.key);
  }

  /** The order of accesses survives when one key moves to the front. */
  lemma TouchKeepsOrder<V>(store: Store<V>, log: seq<Event<V>>, now: int, log': seq<Event<V>>, store': Store<V>,
      key: string)
    requires Truthful(store, log, now) && Ordered(store, log) && Touched(log, log', key)
    requires key in store' && now < store'[key].lastAccessedAt
    requires forall k :: k in store' && k != key ==> k in store && store'[k] == store[k]
    ensures Ordered(store', log')
  {
    forall j, k | j in store' && k in store' && store'[j].lastAccessedAt > store'[k].lastAccessedAt
      ensures j in Since(log', k)
    {
      assert Since(log', k) == if k == key then {} else Since(log, k) + {key};
      assert j != key ==> j in store;
      assert k != key ==> Latest(log, k).Some?;
      assert j != key ==> Latest(log, j).Some?;
    }
    forall k | k in store' && k != key
      ensures store'[k].lastAccessedAt <= now
    {
      assert Latest(log, k).Some?;
    }
  }

  lemma TouchKeepsFair<V>(store: Store<V>, log: seq<Event<V>>, now: int, maxEntries: nat, log': seq<Event<V>>,
      k: string, key: string, t: int)
    requires LostFairly(store, log, now, maxEntries) && Touched(log, log', key) && now <= t
    requires k != key && k !in store && Latest(log', k).Some?
    ensures Latest(log', k).value.1 <= t || |Since(log', k)| >= maxEntries
  {
    SubsetSize(Since(log, k), Since(log', k));
  }

  lemma HitKeepsInv<V>(store: Store<V>, log: seq<Event<V>>, now: int, maxEntries: nat, key: string, t: int)
    requires Inv(store, log, now, maxEntries) && key in store && now < t
    ensures Inv(Touch(store, key, t), log + [Hit(key)], t, maxEntries)
  {
    var log', store' := log + [Hit(key)], Touch(store, key, t);
    TouchGrows(log, Hit(key));
    TouchKeepsOrder(store, log, now, log', store', key);
    forall k | k !in store' && Latest(log', k).Some?
      ensures Latest(log', k).value.1 <= t || |Since(log', k)| >= maxEntries
    {
      TouchKeepsFair(store, log, now, maxEntries, log', k, key, t);
    }
    EmptyKeyGrows(log, Hit(key));
    assert store'.Keys == store.Keys;
    SubsetSize(store'.Keys, store.Keys);
  }

  function DroppedKeys<V>(store: Store<V>, e: Event<V>): set<string> {
    set k | k in store && Drops(e, k)
  }

  /** The event touches nothing and forgets the keys it drops. */
  ghost predicate Forgot<V>(log: seq<Event<V>>, log': seq<Event<V>>, e: Event<V>) {
    && (forall k :: Latest(log', k) == if Drops(e, k) then None else Latest(log, k))
    && (forall k :: Since(log', k) == Since(log, k))
  }

  lemma DropGrows<V>(log: seq<Event<V>>, e: Event<V>)
    requires !Touches(e)
    ensures Forgot(log, log + [e], e)
  {
    forall k
      ensures Latest(log + [e], k) == if Drops(e, k) then None else Latest(log, k)
      ensures Since(log + [e], k) == Since(log, k)
    {
      LogGrows(log, e, k);
    }
  }

  lemma DropIsTruthful<V>(store: Store<V>, log: seq<Event<V>>, log': seq<Event<V>>, now: int, e: Event<V>)
    requires Truthful(store, log, now) && Forgot(log, log', e)
    ensures Truthful(store - DroppedKeys(store, e), log', now)
  {
    var left := store - DroppedKeys(store, e);
    forall k | k in left
      ensures Latest(log', k) == Some((left[k].value, left[k].expiresAt)) && left[k].lastAccessedAt <= now
    {
      assert k in store && !Drops(e, k) && Latest(log, k).Some?;
    }
  }

  lemma DropKeepsOrder<V>(store: Store<V>, log: seq<Event<V>>, log': seq<Event<V>>, e: Event<V>)
    requires Ordered(store, log) && Forgot(log, log', e)
    ensures Ordered(store - DroppedKeys(store, e), log')
  {
    var left := store - DroppedKeys(store, e);
    PartIsOrdered(left, store, log);
    forall j, k | j in left && k in left && left[j].lastAccessedAt > left[k].lastAccessedAt
      ensures j in Since(log', k)
    {
      assert Since(log', k) == Since(log, k);
    }
  }

  lemma DropIsFair<V>(store: Store<V>, log: seq<Event<V>>, log': seq<Event<V>>, now: int, maxEntries: nat, e: Event<V>)
    requires LostFairly(store, log, now, maxEntries) && Forgot(log, log', e)
    ensures LostFairly(store - DroppedKeys(store, e), log', now, maxEntries)
  {
    forall k | k !in store - DroppedKeys(store, e) && Latest(log', k).Some?
      ensures Latest(log', k).value.1 <= now || |Since(log', k)| >= maxEntries
    {
      assert !Drops(e, k) && k !in store;
      assert Latest(log', k) == Latest(log, k) && Since(log', k) == Since(log, k);
    }
  }

  lemma DropKeepsInv<V>(store: Store<V>, log: seq<Event<V>>, now: int, maxEntries: nat, e: Event<V>)
    requires Inv(store, log, now, maxEntries) && !Touches(e)
    ensures Inv(store - DroppedKeys(store, e), log + [e], now, maxEntries)
  {
    DropGrows(log, e);
    DropIsTruthful(store, log, log + [e], now, e);
    DropKeepsOrder(store, log, log + [e], e);
    DropIsFair(store, log, log + [e], now, maxEntries, e);
    EmptyKeyGrows(log, e);
    PartIsSmall(store - DroppedKeys(store, e), store);
  }

  ghost predicate IsOldest<V>(store: Store<V>, key: string) {
    key in store && forall j :: j in store && j != key ==> store[key].lastAccessedAt < store[j].lastAccessedAt
  }

  /** The store without its victim; the empty key is never evicted. */
  function Evict<V>(store: Store<V>, victim: string): Store<V> {
    if victim != "" then store - {victim} else store
  }

  /** What is left to make room for `key`. */
  function Room<V>(store: Store<V>, key: string, maxEntries: nat, victim: string): Store<V> {
    if key !in store && |store| >= maxEntries then Evict(store, victim) else store
  }

  lemma RoomIsWithin<V>(store: Store<V>, key: string, maxEntries: nat, victim: string)
    ensures Within(Room(store, key, maxEntries, victim), store)
  {
  }

  /** The victim is lost fairly: with the new key, at least `maxEntries` others were used since. */
  lemma VictimIsOldEnough<V>(store: Store<V>, log: seq<Event<V>>, maxEntries: nat, victim: string, e: Event<V>)
    requires Ordered(store, log) && IsOldest(store, victim) && |store| >= maxEntries
    requires e.Stored? && e.key !in store
    ensures |Since(log + [e], victim)| >= maxEntries
  {
    LogGrows(log, e, victim);
    var others := store.Keys - {victim} + {e.key};
    assert others <= Since(log + [e], victim);
    SubsetSize(others, Since(log + [e], victim));
    assert |store.Keys - {victim}| == |store.Keys| - 1;
  }

  lemma StoreKeepsFair<V>(store: Store<V>, log: seq<Event<V>>, now: int, maxEntries: nat, victim: string, e: Event<V>,
      t: int, k: string)
    requires Inv(store, log, now, maxEntries) && now <= t && maxEntries > 0 && e.Stored?
    requires e.key !in store && |store| >= maxEntries ==> IsOldest(store, victim)
    requires k !in Room(store, e.key, maxEntries, victim) && k != e.key && Latest(log + [e], k).Some?
    ensures Latest(log + [e], k).value.1 <= t || |Since(log + [e], k)| >= maxEntries
  {
    TouchGrows(log, e);
    if k in store {
      VictimIsOldEnough(store, log, maxEntries, victim, e);
    } else {
      TouchKeepsFair(store, log, now, maxEntries, log + [e], k, e.key, t);
    }
  }

  lemma StoreKeepsInv<V>(store: Store<V>, log: seq<Event<V>>, now: int, maxEntries: nat, victim: string, key: string,
      value: V, ttl: int, t: int)
    requires Inv(store, log, now, maxEntries) && now < t && maxEntries > 0
    requires key !in store && |store| >= maxEntries ==> IsOldest(store, victim)
    ensures Inv(Room(store, key, maxEntries, victim)[key := Entry(value, t, Until(t, ttl), t)],
            log + [Stored(key, value, Until(t, ttl))], t, maxEntries)
  {
    var e := Stored(key, value, Until(t, ttl));
    var room := Room(store, key, maxEntries, victim);
    var store' := room[key := Entry(value, t, Until(t, ttl), t)];
    TouchGrows(log, e);
    RoomIsWithin(store, key, maxEntries, victim);
    PartIsTruthful(room, store, log, now, t);
    StoreIsTruthful(room, log, log + [e], t, key, Entry(value, t, Until(t, ttl), t));
    TouchKeepsOrder(store, log, now, log + [e], store', key);
    StoreLosesFairly(store, log, now, maxEntries, victim, e, t, store');
    StoreStaysSmall(store, log, maxEntries, victim, e, store');
  }

  lemma StoreLosesFairly<V>(store: Store<V>, log: seq<Event<V>>, now: int, maxEntries: nat, victim: string,
      e: Event<V>, t: int, store': Store<V>)
    requires Inv(store, log, now, maxEntries) && now <= t && maxEntries > 0 && e.Stored?
    requires e.key !in store && |store| >= maxEntries ==> IsOldest(store, victim)
    requires store'.Keys == Room(store, e.key, maxEntries, victim).Keys + {e.key}
    ensures LostFairly(store', log + [e], t, maxEntries)
  {
    forall k | k !in store' && Latest(log + [e], k).Some?
      ensures Latest(log + [e], k).value.1 <= t || |Since(log + [e], k)| >= maxEntries
    {
      StoreKeepsFair(store, log, now, maxEntries, victim, e, t, k);
    }
  }

  lemma StoreIsTruthful<V>(room: Store<V>, log: seq<Event<V>>, log': seq<Event<V>>, t: int, key: string,
      entry: Entry<V>)
    requires Truthful(room, log, t) && Touched(log, log', key)
    requires Latest(log', key) == Some((entry.value, entry.expiresAt)) && entry.lastAccessedAt <= t
    ensures Truthful(room[key := entry], log', t)
  {
    var store' := room[key := entry];
    forall k | k in store'
      ensures Latest(log', k) == Some((store'[k].value, store'[k].expiresAt)) && store'[k].lastAccessedAt <= t
    {
      assert k != key ==> Latest(log', k) == Latest(log, k);
    }
  }

  lemma StoreStaysSmall<V>(store: Store<V>, log: seq<Event<V>>, maxEntries: nat, victim: string, e: Event<V>,
      store': Store<V>)
    requires !EmptyKeyStored(log) ==> |store| <= maxEntries && "" !in store
    requires e.Stored? && maxEntries > 0
    requires e.key !in store && |store| >= maxEntries ==> IsOldest(store, victim)
    requires store'.Keys == Room(store, e.key, maxEntries, victim).Keys + {e.key}
    ensures !EmptyKeyStored(log + [e]) ==> |store'| <= maxEntries && "" !in store'
  {
    EmptyKeyGrows(log, e);
    if !EmptyKeyStored(log + [e]) {
      RoomIsEnough(store, e.key, maxEntries, victim);
      assert |store'| == |store'.Keys|;
    }
  }

  /** A store within its limit stays so unless the entry to evict is the one with the empty key. */
  lemma RoomIsEnough<V>(store: Store<V>, key: string, maxEntries: nat, victim: string)
    requires |store| <= maxEntries && maxEntries > 0
    requires key !in store && |store| >= maxEntries ==> IsOldest(store, victim)
    ensures |Room(store, key, maxEntries, victim).Keys + {key}| <= maxEntries <==>
            !(key !in store && |store| == maxEntries && victim == "")
  {
    var room := Room(store, key, maxEntries, victim);
    if key in store {
      assert room.Keys + {key} == store.Keys;
    } else if |store| == maxEntries && victim != "" {
      assert room.Keys == store.Keys - {victim};
    }
  }

  // ---------------------------------------------------------------- runs

  /** The store, what callers did, and the last reading of the clock. */
  datatype Cache<V> = Cache(store: Store<V>, log: seq<Event<V>>, now: int)

  datatype Move<V> =
    | Expire(now: int, gone: set<string>)
    | Reuse(now: int, key: string)
    | Drop(event: Event<V>)
    | Put(now: int, key: string, value: V, ttl: int, victim: string)

  ghost predicate Allowed<V>(c: Cache<V>, m: Move<V>, maxEntries: nat) {
    match m
    case Expire(now, gone) => c.now <= now && ExpiredBy(c.store, gone, now)
    case Reuse(now, key) => c.now < now && key in c.store
    case Drop(e) => !Touches(e)
    case Put(now, key, _, _, victim) =>
      c.now < now && (key !in c.store && |c.store| >= maxEntries ==> IsOldest(c.store, victim))
  }

  function Apply<V>(c: Cache<V>, m: Move<V>, maxEntries: nat): Cache<V> {
    match m
    case Expire(now, gone) => Cache(c.store - gone, c.log, now)
    case Reuse(now, key) => Cache(if key in c.store then Touch(c.store, key, now) else c.store, c.log + [Hit(key)], now)
    case Drop(e) => Cache(c.store - DroppedKeys(c.store, e), c.log + [e], c.now)
    case Put(now, key, value, ttl, victim) =>
      Cache(Room(c.store, key, maxEntries, victim)[key := Entry(value, now, Until(now, ttl), now)],
            c.log + [Stored(key, value, Until(now, ttl))], now)
  }

  function New<V>(start: int): Cache<V> {
    Cache(map[], [], start)
  }

  function Run<V>(c: Cache<V>, moves: seq<Move<V>>, maxEntries: nat): Cache<V> {
    if moves == [] then c else Apply(Run(c, moves[..|moves| - 1], maxEntries), moves[|moves| - 1], maxEntries)
  }

  ghost predicate Possible<V>(c: Cache<V>, moves: seq<Move<V>>, maxEntries: nat) {
    moves == [] ||
    (Possible(c, moves[..|moves| - 1], maxEntries) &&
     Allowed(Run(c, moves[..|moves| - 1], maxEntries), moves[|moves| - 1], maxEntries))
  }

  lemma RunExtends<V>(c: Cache<V>, moves: seq<Move<V>>, m: Move<V>, maxEntries: nat)
    requires Possible(c, moves, maxEntries) && Allowed(Run(c, moves, maxEntries), m, maxEntries)
    ensures Possible(c, moves + [m], maxEntries)
    ensures Run(c, moves + [m], maxEntries) == Apply(Run(c, moves, maxEntries), m, maxEntries)
  {
    assert (moves + [m])[..|moves|] == moves;
  }

  /** The two moves of a `set`. */
  lemma SetRuns<V>(c: Cache<V>, moves: seq<Move<V>>, maxEntries: nat, before: int, gone: set<string>, now: int,
      key: string, value: V, ttl: int, victim: string) returns (more: seq<Move<V>>)
    requires Possible(c, moves, maxEntries)
    requires var d := Run(c, moves, maxEntries);
             && d.now <= before < now && ExpiredBy(d.store, gone, before)
             && (key !in d.store - gone && |d.store - gone| >= maxEntries ==> IsOldest(d.store - gone, victim))
    ensures Possible(c, more, maxEntries)
    ensures var d := Run(c, moves, maxEntries);
            Run(c, more, maxEntries) ==
            Cache(Room(d.store - gone, key, maxEntries, victim)[key := Entry(value, now, Until(now, ttl), now)],
                  d.log + [Stored(key, value, Until(now, ttl))], now)
  {
    RunExtends(c, moves, Expire(before, gone), maxEntries);
    more := moves + [Expire(before, gone)];
    RunExtends(c, more, Put(now, key, value, ttl, victim), maxEntries);
    more := more + [Put(now, key, value, ttl, victim)];
  }

  lemma MoveKeepsInv<V>(c: Cache<V>, m: Move<V>, maxEntries: nat)
    requires Inv(c.store, c.log, c.now, maxEntries) && Allowed(c, m, maxEntries) && maxEntries > 0
    ensures var d := Apply(c, m, maxEntries); Inv(d.store, d.log, d.now, maxEntries)
  {
    match m
    case Expire(now, gone) => ExpiryKeepsInv(c.store, c.log, c.now, maxEntries, gone, now);
    case Reuse(now, key) => HitKeepsInv(c.store, c.log, c.now, maxEntries, key, now);
    case Drop(e) => DropKeepsInv(c.store, c.log, c.now, maxEntries, e);
    case Put(now, key, value, ttl, victim) =>
      StoreKeepsInv(c.store, c.log, c.now, maxEntries, victim, key, value, ttl, now);
  }

  /** Every reachable cache is truthful, ordered, loses entries fairly and, as long as the empty key
      was never stored, keeps to its limit. */
  lemma {:induction false} EveryRunIsSound<V>(start: int, moves: seq<Move<V>>, maxEntries: nat)
    requires Possible(New(start), moves, maxEntries) && maxEntries > 0
    ensures var c := Run(New(start), moves, maxEntries); Inv(c.store, c.log, c.now, maxEntries)
  {
    if moves != [] {
      EveryRunIsSound(start, moves[..|moves| - 1], maxEntries);
      MoveKeepsInv(Run(New(start), moves[..|moves| - 1], maxEntries), moves[|moves| - 1], maxEntries);
    }
  }

  /** A cache that some possible run from an empty one leads to. */
  ghost predicate Reaches<V>(start: int, moves: seq<Move<V>>, maxEntries: nat, c: Cache<V>) {
    maxEntries > 0 && Possible(New(start), moves, maxEntries) && c == Run(New(start), moves, maxEntries)
  }

  /** What is found is the latest value stored. */
  lemma FoundIsLatest<V>(start: int, moves: seq<Move<V>>, maxEntries: nat, c: Cache<V>, key: string)
    requires Reaches(start, moves, maxEntries, c) && key in c.store
    ensures Latest(c.log, key) == Some((c.store[key].value, c.store[key].expiresAt))
  {
    EveryRunIsSound(start, moves, maxEntries);
    assert Latest(c.log, key) == Latest(c.log, key);
  }

  /** What is not found, or found expired, was never stored, dropped, expired or overtaken. */
  lemma MissedFairly<V>(start: int, moves: seq<Move<V>>, maxEntries: nat, c: Cache<V>, key: string, later: int)
    requires Reaches(start, moves, maxEntries, c) && c.now <= later
    requires key in c.store ==> c.store[key].expiresAt <= later
    ensures Latest(c.log, key).None? || Latest(c.log, key).value.1 <= later || |Since(c.log, key)| >= maxEntries
  {
    EveryRunIsSound(start, moves, maxEntries);
  }

  lemma RunTimesDiffer<V>(start: int, moves: seq<Move<V>>, maxEntries: nat)
    requires Possible(New(start), moves, maxEntries) && maxEntries > 0
    ensures TimesDiffer(Run(New(start), moves, maxEntries).store)
  {
    EveryRunIsSound(start, moves, maxEntries);
  }

  lemma RunStaysWithinLimit<V>(start: int, moves: seq<Move<V>>, maxEntries: nat, c: Cache<V>)
    requires Reaches(start, moves, maxEntries, c)
    ensures !EmptyKeyStored(c.log) ==> |c.store| <= maxEntries
  {
    EveryRunIsSound(start, moves, maxEntries);
  }

  // ---------------------------------------------------------------- the empty key

  /** What one successful `set` may do to the store; the entry carries the time of the call. */
  ghost predicate SetCall<V>(before: Store<V>, after: Store<V>, maxEntries: nat, key: string, entry: Entry<V>) {
    exists gone, victim :: SetResult(before, after, maxEntries, key, entry, gone, victim, entry.lastAccessedAt)
  }

  /** `stores` are the stores between successive calls of `set`. */
  ghost predicate SetCalls<V>(stores: seq<Store<V>>, maxEntries: nat, keys: seq<string>, entries: seq<Entry<V>>) {
    && |entries| == |keys| && |stores| == |keys| + 1
    && forall i :: 0 <= i < |keys| ==> SetCall(stores[i], stores[i + 1], maxEntries, keys[i], entries[i])
  }

  /** Later calls come later, and at time `end` no entry has expired. */
  ghost predicate Alive<V>(store: Store<V>, entries: seq<Entry<V>>, end: int) {
    && (forall k, i :: k in store && 0 <= i < |entries| ==> store[k].lastAccessedAt < entries[i].lastAccessedAt)
    && (forall i, j :: 0 <= i < j < |entries| ==> entries[i].lastAccessedAt < entries[j].lastAccessedAt)
    && (forall i :: 0 <= i < |entries| ==> entries[i].lastAccessedAt <= end < entries[i].expiresAt)
    && (forall k :: k in store ==> store[k].expiresAt > end)
  }

  predicate Distinct(keys: seq<string>) {
    forall i, j :: 0 <= i < j < |keys| ==> keys[i] != keys[j]
  }

  predicate NewKeys<V>(store: Store<V>, keys: seq<string>) {
    Distinct(keys) && forall i :: 0 <= i < |keys| ==> keys[i] !in store
  }

  /** While the empty key is the oldest and nothing has expired, a call for a new key removes nothing. */
  lemma NothingEvicted<V>(before: Store<V>, after: Store<V>, maxEntries: nat, key: string, entry: Entry<V>)
    requires SetCall(before, after, maxEntries, key, entry) && IsOldest(before, "") && key !in before
    requires forall k :: k in before ==> before[k].lastAccessedAt < entry.lastAccessedAt < before[k].expiresAt
    ensures after == before[key := entry] && IsOldest(after, "") && |after| == |before| + 1
  {
    var gone, victim :| SetResult(before, after, maxEntries, key, entry, gone, victim, entry.lastAccessedAt);
    assert gone == {};
    assert before - gone == before;
    assert IsOldest(before, victim) ==> victim == "";
    assert after.Keys == before.Keys + {key};
    assert |after| == |after.Keys| && |before| == |before.Keys|;
  }

  /** The empty key is never evicted, and while it is the oldest nothing else is: whatever the limit,
      any number of calls of `set` for new keys leave every entry in place until one expires. */
  lemma {:induction false} EmptyKeyOverflows<V>(stores: seq<Store<V>>, maxEntries: nat, keys: seq<string>,
      entries: seq<Entry<V>>, end: int)
    requires SetCalls(stores, maxEntries, keys, entries) && NewKeys(stores[0], keys)
    requires IsOldest(stores[0], "") && Alive(stores[0], entries, end)
    ensures var last := stores[|keys|];
            && |last| == |stores[0]| + |keys| && IsOldest(last, "")
            && Within(stores[0], last)
            && (forall i :: 0 <= i < |keys| ==> keys[i] in last && last[keys[i]] == entries[i])
            && (forall k :: k in last ==> last[k].expiresAt > end)
    decreases |keys|
  {
    if keys != [] {
      assert SetCall(stores[0], stores[1], maxEntries, keys[0], entries[0]);
      NothingEvicted(stores[0], stores[1], maxEntries, keys[0], entries[0]);
      CallsGoOn(stores, maxEntries, keys, entries, end);
      EmptyKeyOverflows(stores[1..], maxEntries, keys[1..], entries[1..], end);
      FirstStays(stores, keys, entries);
    }
  }

  lemma CallsGoOn<V>(stores: seq<Store<V>>, maxEntries: nat, keys: seq<string>, entries: seq<Entry<V>>, end: int)
    requires SetCalls(stores, maxEntries, keys, entries) && keys != [] && NewKeys(stores[0], keys)
    requires Alive(stores[0], entries, end) && stores[1] == stores[0][keys[0] := entries[0]]
    ensures SetCalls(stores[1..], maxEntries, keys[1..], entries[1..]) && NewKeys(stores[1], keys[1..])
    ensures Alive(stores[1], entries[1..], end)
  {
    forall i | 0 <= i < |keys| - 1
      ensures SetCall(stores[1..][i], stores[1..][i + 1], maxEntries, keys[1..][i], entries[1..][i])
    {
      assert SetCall(stores[i + 1], stores[i + 1 + 1], maxEntries, keys[i + 1], entries[i + 1]);
    }
  }

  lemma FirstStays<V>(stores: seq<Store<V>>, keys: seq<string>, entries: seq<Entry<V>>)
    requires keys != [] && |entries| == |keys| && |stores| == |keys| + 1
    requires NewKeys(stores[0], keys) && stores[1] == stores[0][keys[0] := entries[0]]
    requires Within(stores[1], stores[|keys|])
    requires forall i :: 0 <= i < |keys| - 1 ==>
             keys[1..][i] in stores[|keys|] && stores[|keys|][keys[1..][i]] == entries[1..][i]
    ensures Within(stores[0], stores[|keys|])
    ensures forall i :: 0 <= i < |keys| ==> keys[i] in stores[|keys|] && stores[|keys|][keys[i]] == entries[i]
  {
    forall k | k in stores[0]
      ensures k in stores[|keys|] && stores[0][k] == stores[|keys|][k]
    {
      assert k != keys[0];
      assert k in stores[1];
    }
    assert keys[0] in stores[1];
    forall i | 0 < i < |keys|
      ensures keys[i] in stores[|keys|] && stores[|keys|][keys[i]] == entries[i]
    {
      assert keys[1..][i - 1] == keys[i];
    }
  }

  /** From an empty cache: the calls hold one entry each if the first is for the empty key. */
  lemma EmptyKeyFirst<V>(stores: seq<Store<V>>, maxEntries: nat, keys: seq<string>, entries: seq<Entry<V>>, end: int)
    requires SetCalls(stores, maxEntries, keys, entries) && maxEntries > 0 && stores[0] == map[] && Distinct(keys)
    requires keys != [] && keys[0] == "" && Alive(stores[0], entries, end)
    ensures |stores[|keys|]| == |keys| && forall i :: 0 <= i < |keys| ==>
            keys[i] in stores[|keys|] && stores[|keys|][keys[i]] == entries[i]
  {
    assert SetCall(stores[0], stores[1], maxEntries, keys[0], entries[0]);
    var gone, victim :| SetResult(stores[0], stores[1], maxEntries, "", entries[0], gone, victim,
        entries[0].lastAccessedAt);
    assert stores[1] == stores[0][keys[0] := entries[0]];
    assert stores[1].Keys == {""} && |stores[1]| == |stores[1].Keys|;
    CallsGoOn(stores, maxEntries, keys, entries, end);
    EmptyKeyOverflows(stores[1..], maxEntries, keys[1..], entries[1..], end);
    FirstStays(stores, keys, entries);
  }

  /** Such calls exist for any number of new keys, one after the other. */
  lemma {:induction false} OverflowHappens<V>(store: Store<V>, maxEntries: nat, keys: seq<string>,
      entries: seq<Entry<V>>, end: int)
    returns (stores: seq<Store<V>>)
    requires |entries| == |keys| && NewKeys(store, keys) && IsOldest(store, "") && Alive(store, entries, end)
    ensures SetCalls(stores, maxEntries, keys, entries) && stores[0] == store && |stores[|keys|]| == |store| + |keys|
    decreases |keys|
  {
    stores := [store];
    if keys != [] {
      var next := store[keys[0] := entries[0]];
      assert SetResult(store, next, maxEntries, keys[0], entries[0], {}, "", entries[0].lastAccessedAt) by {
        assert store - {} == store;
      }
      assert SetCall(store, next, maxEntries, keys[0], entries[0]);
      NothingEvicted(store, next, maxEntries, keys[0], entries[0]);
      var rest := OverflowHappens(next, maxEntries, keys[1..], entries[1..], end);
      stores := [store] + rest;
    }
  }

  // ---------------------------------------------------------------- the cache

  function WithPrefix<V>(store: Store<V>, prefix: string): set<string> {
    set k | k in store && prefix <= k
  }

  function Reading(clock: nat -> int, i: nat): int {
    clock(i)
  }

  ghost predicate Increasing(clock: nat -> int) {
    forall i: nat, j: nat :: i < j ==> Reading(clock, i) < Reading(clock, j)
  }

  /** The last of the readings taken so far. */
  ghost function LastReading(clock: nat -> int, ticks: nat): int {
    if ticks == 0 then Reading(clock, 0) - 1 else Reading(clock, ticks - 1)
  }

  lemma LaterReading(clock: nat -> int, a: nat, b: nat)
    requires Increasing(clock) && a <= b
    ensures LastReading(clock, a) <= LastReading(clock, b)
  {
  }

  lemma OneMoreGone<V>(store: Store<V>, gone: set<string>, key: string)
    ensures store - gone - {key} == store - (gone + {key})
  {
  }

  lemma OneLess(keys: set<string>, key: string)
    requires key in keys
    ensures |keys - {key}| == |keys| - 1
  {
  }

  lemma ExpiryLeaves<V>(store: Store<V>, gone: set<string>, now: int)
    requires ExpiredBy(store, gone, now)
    ensures Within(store - gone, store)
    ensures forall k :: k in store && store[k].expiresAt > now ==> k in store - gone
  {
  }

  /** The store after `set`: expired entries go, then the oldest if the key is new and the store still
      full, unless it is the empty key; then the entry is put in place. */
  ghost predicate SetResult<V>(before: Store<V>, after: Store<V>, maxEntries: nat, key: string, entry: Entry<V>,
      gone: set<string>, victim: string, now: int)
  {
    && ExpiredBy(before, gone, now)
    && (key !in before - gone && |before - gone| >= maxEntries ==> IsOldest(before - gone, victim))
    && after == Room(before - gone, key, maxEntries, victim)[key := entry]
  }

  class InMemoryCache<V> {
    const ttlMs: int
    const maxEntries: nat
    const clock: nat -> int
    /** How often the clock was read. */
    var ticks: nat
    var store: Store<V>
    ghost var log: seq<Event<V>>
    ghost var moves: seq<Move<V>>

    ghost function Abs(): Cache<V>
      reads this
    {
      Cache(store, log, LastReading(clock, ticks))
    }

    ghost function Fresh(): Cache<V> {
      New(Reading(clock, 0) - 1)
    }

    /** The cache is in the state that a possible run leads to. */
    ghost predicate Valid()
      reads this
    {
      && ttlMs > 0 && maxEntries > 0 && Increasing(clock)
      && Possible(Fresh(), moves, maxEntries) && Abs() == Run(Fresh(), moves, maxEntries)
    }

    constructor (ttlMs: int, maxEntries: nat, clock: nat -> int)
      requires ttlMs > 0 && maxEntries > 0 && Increasing(clock)
      ensures Valid() && store == map[] && log == []
      ensures this.ttlMs == ttlMs && this.maxEntries == maxEntries && this.clock == clock
    {
      this.ttlMs, this.maxEntries, this.clock := ttlMs, maxEntries, clock;
      ticks, store, log, moves := 0, map[], [], [];
    }

    static method Create(ttlMs: int, maxEntries: int, clock: nat -> int) returns (r: Result<InMemoryCache<V>, string>)
      requires Increasing(clock)
      ensures r.Ok? <==> ttlMs > 0 && maxEntries > 0
      ensures r.Ok? ==> fresh(r.value) && r.value.Valid() && r.value.log == [] && r.value.maxEntries == maxEntries
    {
      if ttlMs <= 0 {
        return Err("Cache ttlMs must be a positive number");
      }
      if maxEntries <= 0 {
        return Err("Cache maxEntries must be a positive integer");
      }
      var cache := new InMemoryCache(ttlMs, maxEntries, clock);
      return Ok(cache);
    }

    method Now() returns (t: int)
      modifies this`ticks
      ensures ticks == old(ticks) + 1 && t == Reading(clock, old(ticks)) == LastReading(clock, ticks)
      ensures Increasing(clock) ==> t > LastReading(clock, old(ticks))
    {
      t := Reading(clock, ticks);
      ticks := ticks + 1;
    }

    /** A hit returns the latest value stored, not yet expired. A miss means there is none, it
        expired, or `maxEntries` other keys were used since. */
    method Get(key: string) returns (r: Option<V>)
      requires Valid()
      modifies this
      ensures Valid()
      ensures r.Some? <==> key in old(store) && old(store)[key].expiresAt > Reading(clock, old(ticks))
      ensures r.Some? ==>
                && Latest(old(log), key).Some? && Latest(old(log), key).value.0 == r.value
                && Latest(old(log), key).value.1 > Reading(clock, old(ticks))
                && log == old(log) + [Hit(key)] && store == Touch(old(store), key, LastReading(clock, ticks))
      ensures r.None? ==>
                && log == old(log) && store == old(store) - {key}
                && (|| Latest(log, key).None?
                    || Latest(log, key).value.1 <= LastReading(clock, ticks)
                    || |Since(log, key)| >= maxEntries)
    {
      if key !in store {
        assert store - {key} == store;
        MissedFairly(Reading(clock, 0) - 1, moves, maxEntries, Abs(), key, LastReading(clock, ticks));
        return None;
      }
      var entry := store[key];
      FoundIsLatest(Reading(clock, 0) - 1, moves, maxEntries, Abs(), key);
      var t := Now();
      if entry.expiresAt <= t {
        RunExtends(Fresh(), moves, Expire(t, {key}), maxEntries);
        moves := moves + [Expire(t, {key})];
        store := store - {key};
        return None;
      }
      var accessed := Now();
      RunExtends(Fresh(), moves, Reuse(accessed, key), maxEntries);
      moves := moves + [Reuse(accessed, key)];
      store := Touch(store, key, accessed);
      log := log + [Hit(key)];
      return Some(entry.value);
    }

    /** Each entry is judged by a reading of its own. */
    method EvictExpiredEntries() returns (ghost gone: set<string>)
      requires Increasing(clock)
      modifies this`ticks, this`store
      ensures ticks == old(ticks) + |old(store)|
      ensures store == old(store) - gone && ExpiredBy(old(store), gone, LastReading(clock, ticks))
      ensures forall k :: k in store ==> store[k].expiresAt > Reading(clock, old(ticks))
      ensures forall k :: k in old(store) && old(store)[k].expiresAt <= Reading(clock, old(ticks)) ==> k in gone
    {
      gone := {};
      var keys := store.Keys;
      assert |keys| == |store|;
      while keys != {}
        invariant keys <= old(store).Keys && gone !! keys
        invariant ticks + |keys| == old(ticks) + |old(store)| && ticks >= old(ticks)
        invariant store == old(store) - gone && ExpiredBy(old(store), gone, LastReading(clock, ticks))
        invariant forall k :: k in store && k !in keys ==> store[k].expiresAt > Reading(clock, old(ticks))
      {
        var key :| key in keys;
        var t := Now();
        if store[key].expiresAt <= t {
          OneMoreGone(old(store), gone, key);
          store := store - {key};
          gone := gone + {key};
        }
        OneLess(keys, key);
        keys := keys - {key};
      }
    }

    method EvictLeastRecentlyUsed() returns (ghost victim: string)
      requires TimesDiffer(store) && store != map[]
      modifies this`store
      ensures IsOldest(old(store), victim) && store == Evict(old(store), victim)
    {
      var keyToEvict: Option<string> := None;
      var keys := store.Keys;
      while keys != {}
        invariant keys <= store.Keys && store == old(store)
        invariant keyToEvict.None? ==> keys == store.Keys
        invariant keyToEvict.Some? ==> keyToEvict.value in store && keyToEvict.value !in keys
        invariant keyToEvict.Some? ==> forall j :: j in store && j !in keys && j != keyToEvict.value ==>
                                         store[keyToEvict.value].lastAccessedAt < store[j].lastAccessedAt
      {
        var key :| key in keys;
        if keyToEvict.None? || store[key].lastAccessedAt < store[keyToEvict.value].lastAccessedAt {
          keyToEvict := Some(key);
        }
        keys := keys - {key};
      }
      victim := keyToEvict.value;
      if keyToEvict != Some("") {
        store := store - {keyToEvict.value};
      }
    }

    function Life(ttl: Option<int>): int {
      if ttl.Some? then ttl.value else ttlMs
    }

    /** The new entry is in place; only expired entries and, if the key is new and the store still
        full, the oldest entry are gone; the empty key stays. */
    method Set(key: string, value: V, ttl: Option<int>)
        returns (r: Result<(), string>, ghost gone: set<string>, ghost victim: string)
      requires Valid()
      modifies this
      ensures Valid()
      ensures r.Err? <==> ttl.Some? && ttl.value <= 0
      ensures r.Err? ==> store == old(store) && log == old(log) && ticks == old(ticks)
      ensures r.Ok? ==>
                var now := LastReading(clock, ticks);
                && ticks == old(ticks) + |old(store)| + 1
                && log == old(log) + [Stored(key, value, Until(now, Life(ttl)))]
                && SetResult(old(store), store, maxEntries, key, Entry(value, now, Until(now, Life(ttl)), now), gone,
                    victim, now)
                && (forall k :: k in old(store) && old(store)[k].expiresAt <= Reading(clock, old(ticks)) ==> k in gone)
    {
      var life := Life(ttl);
      if life <= 0 {
        return Err("Cache entry ttlMs must be a positive number"), {}, "";
      }
      RunTimesDiffer(Reading(clock, 0) - 1, moves, maxEntries);
      ghost var before;
      gone, victim, before := MakeRoom(key);
      var now := Now();
      moves := SetRuns(Fresh(), moves, maxEntries, before, gone, now, key, value, life, victim);
      store := store[key := Entry(value, now, Until(now, life), now)];
      log := log + [Stored(key, value, Until(now, life))];
      return Ok(()), gone, victim;
    }

    /** Expired entries go first; the least recently used one goes only if that was not enough. */
    method MakeRoom(key: string) returns (ghost gone: set<string>, ghost victim: string, ghost now: int)
      requires Increasing(clock) && maxEntries > 0 && TimesDiffer(store)
      modifies this`ticks, this`store
      ensures now == LastReading(clock, ticks) >= LastReading(clock, old(ticks)) && ticks == old(ticks) + |old(store)|
      ensures ExpiredBy(old(store), gone, now) && store == Room(old(store) - gone, key, maxEntries, victim)
      ensures key !in old(store) - gone && |old(store) - gone| >= maxEntries ==> IsOldest(old(store) - gone, victim)
      ensures forall k :: k in old(store) && old(store)[k].expiresAt <= Reading(clock, old(ticks)) ==> k in gone
    {
      gone := EvictExpiredEntries();
      LaterReading(clock, old(ticks), ticks);
      now := LastReading(clock, ticks);
      victim := "";
      if key !in store && |store| >= maxEntries {
        victim := EvictLeastRecentlyUsed();
      }
    }

    method Invalidate(key: string) returns (present: bool)
      requires Valid()
      modifies this
      ensures Valid()
      ensures present == (key in old(store)) && store == old(store) - {key} && log == old(log) + [Invalidated(key)]
    {
      present := key in store;
      RunExtends(Fresh(), moves, Drop(Invalidated(key)), maxEntries);
      moves := moves + [Drop(Invalidated(key))];
      DroppingOne(store, key);
      store := store - {key};
      log := log + [Invalidated(key)];
    }

    method InvalidateByPrefix(prefix: string) returns (count: nat)
      requires Valid()
      modifies this
      ensures Valid()
      ensures count == |WithPrefix(old(store), prefix)| && store == old(store) - WithPrefix(old(store), prefix)
      ensures log == old(log) + [InvalidatedPrefix(prefix)]
    {
      RunExtends(Fresh(), moves, Drop(InvalidatedPrefix(prefix)), maxEntries);
      moves := moves + [Drop(InvalidatedPrefix(prefix))];
      DroppingPrefix(store, prefix);
      count := DeleteByPrefix(prefix);
      log := log + [InvalidatedPrefix(prefix)];
    }

    method DeleteByPrefix(prefix: string) returns (count: nat)
      modifies this`store
      ensures count == |WithPrefix(old(store), prefix)| && store == old(store) - WithPrefix(old(store), prefix)
    {
      count := 0;
      ghost var gone := {};
      var keys := store.Keys;
      while keys != {}
        invariant keys <= old(store).Keys
        invariant forall k :: k in gone <==> k in old(store) && k !in keys && prefix <= k
        invariant count == |gone| && store == old(store) - gone
      {
        var key :| key in keys;
        if prefix <= key {
          OneMoreGone(old(store), gone, key);
          store := store - {key};
          gone := gone + {key};
          count := count + 1;
        }
        keys := keys - {key};
      }
      assert gone == WithPrefix(old(store), prefix);
    }

    method Clear()
      requires Valid()
      modifies this
      ensures Valid()
      ensures store == map[] && log == old(log) + [Cleared]
    {
      RunExtends(Fresh(), moves, Drop(Cleared), maxEntries);
      moves := moves + [Drop(Cleared)];
      DroppingAll(store);
      store := map[];
      log := log + [Cleared];
    }

    /** Counts what is left once the expired entries are gone. */
    method Size() returns (size: nat)
      requires Valid()
      modifies this
      ensures Valid() && log == old(log)
      ensures size == |store| && Within(store, old(store))
      ensures forall k :: k in store ==> store[k].expiresAt > Reading(clock, old(ticks))
      ensures forall k :: k in old(store) && old(store)[k].expiresAt > LastReading(clock, ticks) ==> k in store
      ensures !EmptyKeyStored(log) ==> size <= maxEntries
    {
      ghost var gone := Sweep();
      ExpiryLeaves(old(store), gone, LastReading(clock, ticks));
      RunStaysWithinLimit(Reading(clock, 0) - 1, moves, maxEntries, Abs());
      size := |store|;
    }

    /** The eviction of expired entries as a step of the run. */
    method Sweep() returns (ghost gone: set<string>)
      requires Valid()
      modifies this
      ensures Valid() && log == old(log)
      ensures store == old(store) - gone && ExpiredBy(old(store), gone, LastReading(clock, ticks))
      ensures forall k :: k in store ==> store[k].expiresAt > Reading(clock, old(ticks))
    {
      gone := EvictExpiredEntries();
      LaterReading(clock, old(ticks), ticks);
      RunExtends(Fresh(), moves, Expire(LastReading(clock, ticks), gone), maxEntries);
      moves := moves + [Expire(LastReading(clock, ticks), gone)];
    }
  }

  lemma DroppingOne<V>(store: Store<V>, key: string)
    ensures store - DroppedKeys(store, Invalidated(key)) == store - {key}
  {
  }

  lemma DroppingPrefix<V>(store: Store<V>, prefix: string)
    ensures DroppedKeys(store, InvalidatedPrefix(prefix)) == WithPrefix(store, prefix)
  {
  }

  lemma DroppingAll<V>(store: Store<V>)
    ensures store - DroppedKeys(store, Cleared) == map[]
  {
  }
}
