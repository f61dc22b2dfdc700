/** What the two limiters hold after a run: the Redis list against the in-memory
    queue. */
module LimiterStates {
  import opened RateLimit

  function MemState(store: Store, limits: string -> Limit, evictAfter: int, run: seq<Event>): Store
    requires NoEmptyQueue(store)
    decreases |run|
  {
    if run == [] then store else MemState(MemStep(store, limits, evictAfter, run[0]), limits, evictAfter, run[1..])
  }

  /** One event; an eviction pass is nothing to Redis. */
  function RedisStep(lists: Lists, limits: string -> Limit, ttl: nat, e: Event): Lists {
    match e
    case Clear(_) => lists
    case Request(key, now) => RedisRequest(lists, limits(key), key, now, ttl)
  }

  function RedisState(lists: Lists, limits: string -> Limit, ttl: nat, run: seq<Event>): Lists
    decreases |run|
  {
    if run == [] then lists else RedisState(RedisStep(lists, limits, ttl, run[0]), limits, ttl, run[1..])
  }

  function EndTime(clock: int, run: seq<Event>): int
    decreases |run|
  {
    if run == [] then clock else EndTime(run[0].now, run[1..])
  }

  // ---------------------------------------------------------------------
  // On every run: both hold an end of the same history
  // ---------------------------------------------------------------------

  lemma {:induction false} MemStateRefines(
    store: Store, h: History, limits: string -> Limit, evictAfter: int, clock: int, run: seq<Event>)
    requires MemRefines(store, h, limits, clock) && NoEmptyQueue(store)
    requires Ordered(run, clock) && WindowsFitEviction(limits, evictAfter)
    ensures MemRefines(MemState(store, limits, evictAfter, run), SpecHistory(h, limits, run),
                       limits, EndTime(clock, run))
    decreases |run|
  {
    hide MemRefines, NoEmptyQueue, SpecDecide, MemDecide, MemRequest, MemClear, Record, WindowsFitEviction;
    if run != [] {
      match run[0]
      case Request(key, now) =>
        MemRequestDecides(store, h, limits, clock, key, now);
        MemRequestKeeps(store, h, limits, clock, key, now);
        MemStateRefines(MemStep(store, limits, evictAfter, run[0]),
                        Record(h, key, now, SpecDecide(h, limits(key), key, now)), limits, evictAfter, now, run[1..]);
      case Clear(now) =>
        MemClearRefines(store, h, limits, evictAfter, clock, now);
        MemStateRefines(MemStep(store, limits, evictAfter, run[0]), h, limits, evictAfter, now, run[1..]);
    }
  }

  lemma {:induction false} RedisStateRefines(
    lists: Lists, h: History, limits: string -> Limit, ttl: nat, clock: int, run: seq<Event>)
    requires RedisRefines(lists, h, limits, ttl, clock) && Ordered(run, clock) && WindowsFitTtl(limits, ttl)
    ensures RedisRefines(RedisState(lists, limits, ttl, run), SpecHistory(h, limits, run),
                         limits, ttl, EndTime(clock, run))
    decreases |run|
  {
    hide RedisRefines, SpecDecide, RedisRequest, Record, WindowsFitTtl;
    if run != [] {
      match run[0]
      case Request(key, now) =>
        RedisRequestRefines(lists, h, limits, ttl, clock, key, now);
        RedisStateRefines(RedisStep(lists, limits, ttl, run[0]),
                          Record(h, key, now, SpecDecide(h, limits(key), key, now)), limits, ttl, now, run[1..]);
      case Clear(now) =>
        OtherKeysAge(lists, h, limits, ttl, clock, now);
        RedisStateRefines(lists, h, limits, ttl, now, run[1..]);
    }
  }

  ghost predicate IsSuffix(a: seq<int>, b: seq<int>) { |a| <= |b| && a == b[|b| - |a|..] }

  lemma {:induction false} StandsForSuffix(kept: seq<int>, past: seq<int>, limit: Limit, clock: int)
    requires StandsFor(kept, past, limit, clock)
    ensures IsSuffix(kept, past) && |kept| <= Capacity(limit)
  {
  }

  lemma {:induction false} SuffixesNest(a: seq<int>, b: seq<int>, whole: seq<int>)
    requires IsSuffix(a, whole) && IsSuffix(b, whole) && |a| <= |b|
    ensures IsSuffix(a, b) && (|a| == |b| ==> a == b)
  {
    assert b[|b| - |a|..] == whole[|whole| - |a|..];
  }

  lemma {:induction false} NothingKept(limit: Limit, clock: int)
    ensures StandsFor([], [], limit, clock) && Reverse([]) == []
  {
  }

  lemma {:induction false} StartRefines(limits: string -> Limit, ttl: nat, clock: int)
    ensures NoEmptyQueue(map[]) && MemRefines(map[], map[], limits, clock)
    ensures RedisRefines(map[], map[], limits, ttl, clock)
  {
    hide StandsFor, Reverse;
    forall k ensures StandsFor([], [], limits(k), clock) && Reverse([]) == [] {
      NothingKept(limits(k), clock);
    }
  }

  lemma {:induction false} RedisKeyRefines(
    lists: Lists, h: History, limits: string -> Limit, ttl: nat, clock: int, key: string)
    requires RedisRefines(lists, h, limits, ttl, clock)
    ensures StandsFor(Reverse(EntryAt(lists, key).items), Past(h, key), limits(key), clock)
  {
    hide StandsFor, Reverse;
  }

  /** After every ordered run, with evictions and expiries anywhere, neither the
      list nor the queue of a key is longer than the maximum, and read in the
      same direction one is the end of the other: they differ at most in old
      times that only one of them has dropped. */
  lemma {:induction false} ListAndQueueAgree(
    limits: string -> Limit, evictAfter: int, ttl: nat, run: seq<Event>, key: string)
    requires Ordered(run, 0) && WindowsFitTtl(limits, ttl) && WindowsFitEviction(limits, evictAfter)
    ensures var queue := Past(MemState(map[], limits, evictAfter, run), key);
            var list := Reverse(EntryAt(RedisState(map[], limits, ttl, run), key).items);
            && |queue| <= limits(key).maxRequests && |list| <= limits(key).maxRequests
            && (IsSuffix(queue, list) || IsSuffix(list, queue))
            && (|queue| == |list| ==> queue == list)
  {
    hide MemRefines, RedisRefines, StandsFor, Reverse, NoEmptyQueue, IsSuffix, MemState, RedisState, SpecHistory,
        Ordered;
    StartRefines(limits, ttl, 0);
    MemStateRefines(map[], map[], limits, evictAfter, 0, run);
    RedisStateRefines(map[], map[], limits, ttl, 0, run);
    var store := MemState(map[], limits, evictAfter, run);
    var lists := RedisState(map[], limits, ttl, run);
    var h := SpecHistory(map[], limits, run);
    var t := EndTime(0, run);
    KeyRefines(store, h, limits, t, key);
    RedisKeyRefines(lists, h, limits, ttl, t, key);
    var queue := Past(store, key);
    var list := Reverse(EntryAt(lists, key).items);
    StandsForSuffix(queue, Past(h, key), limits(key), t);
    StandsForSuffix(list, Past(h, key), limits(key), t);
    if |queue| <= |list| {
      SuffixesNest(queue, list, Past(h, key));
    } else {
      SuffixesNest(list, queue, Past(h, key));
    }
  }

  // ---------------------------------------------------------------------
  // While a key is neither evicted nor expired: equal contents
  // ---------------------------------------------------------------------

  ghost predicate Mirrored(store: Store, lists: Lists, limit: Limit, key: string) {
    Reverse(EntryAt(lists, key).items) == Past(store, key) && |Past(store, key)| <= Capacity(limit)
  }

  /** The event finds the key's own list, if it asks for it, still alive, and does
      not evict the key's own queue. */
  predicate Spares(store: Store, lists: Lists, evictAfter: int, key: string, e: Event) {
    match e
    case Request(k, now) => k == key ==> EntryAt(lists, key).items == [] || now < EntryAt(lists, key).expireAt
    case Clear(now) => key in store ==> !Stale(store[key], evictAfter, now)
  }

  predicate Spared(
    store: Store, lists: Lists, limits: string -> Limit, evictAfter: int, ttl: nat, key: string, run: seq<Event>)
    requires NoEmptyQueue(store)
    decreases |run|
  {
    run == []
    || (Spares(store, lists, evictAfter, key, run[0])
        && Spared(MemStep(store, limits, evictAfter, run[0]), RedisStep(lists, limits, ttl, run[0]),
                  limits, evictAfter, ttl, key, run[1..]))
  }

  /** One key: both limiters decide alike and leave mirrored contents. */
  lemma {:induction false} MirrorKey(queue: seq<int>, items: seq<int>, limit: Limit, now: int)
    requires Reverse(items) == queue && |queue| <= Capacity(limit) && limit.maxRequests >= 1
    ensures items != [] ==> queue != [] && items[|items| - 1] == queue[0]
    ensures Reverse(Push(items, limit, now)) == Enqueue(queue, limit, now)
    ensures |Enqueue(queue, limit, now)| <= Capacity(limit)
  {
    ReverseAdmits(items, limit, now);
  }

  lemma {:induction false} MirrorRequest(store: Store, lists: Lists, limit: Limit, key: string, now: int, ttl: nat)
    requires NoEmptyQueue(store) && Mirrored(store, lists, limit, key) && limit.maxRequests >= 1
    requires EntryAt(lists, key).items == [] || now < EntryAt(lists, key).expireAt
    ensures MemDecide(store, limit, key, now) == RedisDecide(lists, limit, key, now)
    ensures Mirrored(MemRequest(store, limit, key, now), RedisRequest(lists, limit, key, now, ttl), limit, key)
  {
    hide Reverse, Push, Enqueue;
    var items := EntryAt(lists, key).items;
    assert Live(lists, key, now) == items;
    MirrorKey(Past(store, key), items, limit, now);
  }

  lemma {:induction false} MirrorStep(
    store: Store, lists: Lists, limits: string -> Limit, evictAfter: int, ttl: nat, key: string, e: Event)
    requires NoEmptyQueue(store) && Mirrored(store, lists, limits(key), key) && limits(key).maxRequests >= 1
    requires Spares(store, lists, evictAfter, key, e)
    ensures Mirrored(MemStep(store, limits, evictAfter, e), RedisStep(lists, limits, ttl, e), limits(key), key)
  {
    hide Reverse, Push, Enqueue, MemDecide, RedisDecide;
    match e
    case Request(k, now) => if k == key { MirrorRequest(store, lists, limits(key), key, now, ttl); }
    case Clear(now) => assert Past(MemClear(store, evictAfter, now), key) == Past(store, key);
  }

  /** While a key's own entry has not expired at its own requests and its own
      queue is not evicted, its list is its queue reversed, never longer than the
      maximum, for however long and whatever happens to other keys. */
  lemma {:induction false} ListIsQueueReversed(
    store: Store, lists: Lists, limits: string -> Limit, evictAfter: int, ttl: nat, key: string, run: seq<Event>)
    requires NoEmptyQueue(store) && Mirrored(store, lists, limits(key), key) && limits(key).maxRequests >= 1
    requires Spared(store, lists, limits, evictAfter, ttl, key, run)
    ensures Mirrored(MemState(store, limits, evictAfter, run), RedisState(lists, limits, ttl, run), limits(key), key)
    decreases |run|
  {
    hide Mirrored, Spares, NoEmptyQueue, MemStep, RedisStep;
    if run != [] {
      MirrorStep(store, lists, limits, evictAfter, ttl, key, run[0]);
      ListIsQueueReversed(MemStep(store, limits, evictAfter, run[0]), RedisStep(lists, limits, ttl, run[0]),
                          limits, evictAfter, ttl, key, run[1..]);
    }
  }
}
