/** Sliding-window rate limiting: the full-history specification, the
    in-memory limiter with background eviction, and the Redis-list limiter.

    Times are whole seconds.  A limit belongs to a key and does not change. */
module RateLimit {

  /** maxRequestNum and duration.  A maximum below zero makes the source panic
      when it sizes the first slice, so it is not a limit. */
  datatype Limit = Limit(maxRequests: nat, duration: int)

  /** The number of requests a window really admits: the memory limiter always
      lets the first request of a key through, so a maximum of 0 acts as 1. */
  function Capacity(limit: Limit): nat {
    if limit.maxRequests < 1 then 1 else limit.maxRequests
  }

  datatype Decision = Accepted | Rejected | ServerError

  /** A request for a key, or a pass of the background eviction. */
  datatype Event = Request(key: string, now: int) | Clear(now: int)

  ghost predicate Ordered(run: seq<Event>, clock: int)
    decreases |run|
  {
    run == [] || (clock <= run[0].now && Ordered(run[1..], run[0].now))
  }

  // ---------------------------------------------------------------------
  // The specification: remember every accepted request
  // ---------------------------------------------------------------------

  type History = map<string, seq<int>>

  function Past(h: History, key: string): seq<int> {
    if key in h then h[key] else []
  }

  /** How many of the times lie less than `duration` before `now`. */
  function CountWithin(times: seq<int>, now: int, duration: int): nat {
    if times == [] then 0
    else CountWithin(times[1..], now, duration) + if now - times[0] < duration then 1 else 0
  }

  function SpecDecide(h: History, limit: Limit, key: string, now: int): Decision {
    if CountWithin(Past(h, key), now, limit.duration) < Capacity(limit) then Accepted else Rejected
  }

  function Record(h: History, key: string, now: int, d: Decision): History {
    if d.Accepted? then h[key := Past(h, key) + [now]] else h
  }

  /** The decisions of the specification on a run; eviction means nothing to it. */
  function SpecRun(h: History, limits: string -> Limit, run: seq<Event>): seq<Decision>
    decreases |run|
  {
    if run == [] then []
    else match run[0]
      case Clear(_) => SpecRun(h, limits, run[1..])
      case Request(key, now) =>
        var d := SpecDecide(h, limits(key), key, now);
        [d] + SpecRun(Record(h, key, now, d), limits, run[1..])
  }

  function SpecHistory(h: History, limits: string -> Limit, run: seq<Event>): History
    decreases |run|
  {
    if run == [] then h
    else match run[0]
      case Clear(_) => SpecHistory(h, limits, run[1..])
      case Request(key, now) =>
        SpecHistory(Record(h, key, now, SpecDecide(h, limits(key), key, now)), limits, run[1..])
  }

  // ---------------------------------------------------------------------
  // The in-memory limiter
  // ---------------------------------------------------------------------

  /** A queue of accepted times per key, oldest first. */
  type Store = map<string, seq<int>>

  ghost predicate NoEmptyQueue(store: Store) { forall k :: k in store ==> store[k] != [] }

  function MemDecide(store: Store, limit: Limit, key: string, now: int): Decision
    requires key in store ==> store[key] != []
  {
    if key !in store || |store[key]| < limit.maxRequests || now - store[key][0] >= limit.duration
    then Accepted else Rejected
  }

  /** The queue an accepted request leaves behind. */
  function Enqueue(queue: seq<int>, limit: Limit, now: int): seq<int> {
    if queue == [] then [now]
    else if |queue| < limit.maxRequests then queue + [now]
    else queue[1..] + [now]
  }

  function MemRequest(store: Store, limit: Limit, key: string, now: int): Store
    requires key in store ==> store[key] != []
  {
    if MemDecide(store, limit, key, now).Rejected? then store
    else store[key := Enqueue(Past(store, key), limit, now)]
  }

  predicate Stale(queue: seq<int>, evictAfter: int, now: int) {
    queue == [] || now - queue[|queue| - 1] > evictAfter
  }

  function MemClear(store: Store, evictAfter: int, now: int): Store {
    map k | k in store && !Stale(store[k], evictAfter, now) :: store[k]
  }

  function MemStep(store: Store, limits: string -> Limit, evictAfter: int, e: Event): Store
    requires NoEmptyQueue(store)
    ensures NoEmptyQueue(MemStep(store, limits, evictAfter, e))
  {
    match e
    case Request(key, now) => MemRequest(store, limits(key), key, now)
    case Clear(now) => MemClear(store, evictAfter, now)
  }

  function MemRun(store: Store, limits: string -> Limit, evictAfter: int, run: seq<Event>): seq<Decision>
    requires NoEmptyQueue(store)
    decreases |run|
  {
    if run == [] then []
    else
      var rest := MemRun(MemStep(store, limits, evictAfter, run[0]), limits, evictAfter, run[1..]);
      match run[0]
      case Request(key, now) => [MemDecide(store, limits(key), key, now)] + rest
      case Clear(_) => rest
  }

  // ---------------------------------------------------------------------
  // Counting
  // ---------------------------------------------------------------------

  lemma {:induction false} CountConcat(a: seq<int>, b: seq<int>, now: int, duration: int)
    ensures CountWithin(a + b, now, duration) == CountWithin(a, now, duration) + CountWithin(b, now, duration)
  {
    if a == [] {
      assert a + b == b;
    } else {
      assert (a + b)[1..] == a[1..] + b;
      CountConcat(a[1..], b, now, duration);
    }
  }

  ghost predicate Expired(times: seq<int>, now: int, duration: int) {
    forall i :: 0 <= i < |times| ==> now - times[i] >= duration
  }

  lemma {:induction false} CountBounds(times: seq<int>, now: int, duration: int)
    ensures CountWithin(times, now, duration) <= |times|
    ensures Expired(times, now, duration) ==> CountWithin(times, now, duration) == 0
    ensures (forall i :: 0 <= i < |times| ==> now - times[i] < duration)
        ==> CountWithin(times, now, duration) == |times|
  {
    if times != [] { CountBounds(times[1..], now, duration); }
  }

  ghost predicate Sorted(times: seq<int>) {
    forall i, j :: 0 <= i <= j < |times| ==> times[i] <= times[j]
  }

  // ---------------------------------------------------------------------
  // Refinement, shared by both implementations
  // ---------------------------------------------------------------------

  /** `kept` may stand in for a whole history `dropped + kept` from `clock` on:
      it is no longer than the capacity, and what was dropped is either outside
      the window or older than a full window. */
  ghost predicate Covers(dropped: seq<int>, kept: seq<int>, limit: Limit, clock: int) {
    && |kept| <= Capacity(limit)
    && (|kept| == Capacity(limit) || Expired(dropped, clock, limit.duration))
  }

  ghost predicate UpTo(times: seq<int>, clock: int) {
    Sorted(times) && (times != [] ==> times[|times| - 1] <= clock)
  }

  ghost predicate StandsFor(kept: seq<int>, past: seq<int>, limit: Limit, clock: int) {
    && UpTo(past, clock)
    && |kept| <= |past|
    && past == past[..|past| - |kept|] + kept
    && Covers(past[..|past| - |kept|], kept, limit, clock)
  }

  lemma {:induction false} OpenDecides(dropped: seq<int>, kept: seq<int>, limit: Limit, clock: int, now: int)
    requires Covers(dropped, kept, limit, clock) && clock <= now && |kept| < Capacity(limit)
    ensures CountWithin(dropped + kept, now, limit.duration) < Capacity(limit)
  {
    CountConcat(dropped, kept, now, limit.duration);
    CountBounds(dropped, now, limit.duration);
    CountBounds(kept, now, limit.duration);
  }

  lemma {:induction false} FullDecides(dropped: seq<int>, kept: seq<int>, limit: Limit, now: int)
    requires |kept| == Capacity(limit) && Sorted(dropped + kept)
    ensures CountWithin(dropped + kept, now, limit.duration) < Capacity(limit) <==> now - kept[0] >= limit.duration
  {
    var times := dropped + kept;
    var n := |dropped|;
    assert times[n] == kept[0];
    if now - kept[0] >= limit.duration {
      assert times == times[..n + 1] + times[n + 1..];
      assert Expired(times[..n + 1], now, limit.duration);
      CountConcat(times[..n + 1], times[n + 1..], now, limit.duration);
      CountBounds(times[..n + 1], now, limit.duration);
      CountBounds(times[n + 1..], now, limit.duration);
    } else {
      assert forall i :: 0 <= i < |kept| ==> kept[i] == times[n + i];
      CountConcat(dropped, kept, now, limit.duration);
      CountBounds(kept, now, limit.duration);
    }
  }

  /** What the kept times decide is what the whole history decides. */
  lemma {:induction false} KeptDecides(kept: seq<int>, past: seq<int>, limit: Limit, clock: int, now: int)
    requires StandsFor(kept, past, limit, clock) && clock <= now
    ensures CountWithin(past, now, limit.duration) < Capacity(limit) <==>
            (|kept| < Capacity(limit) || now - kept[0] >= limit.duration)
  {
    if |kept| < Capacity(limit) {
      OpenDecides(past[..|past| - |kept|], kept, limit, clock, now);
    } else {
      FullDecides(past[..|past| - |kept|], kept, limit, now);
    }
  }

  /** Accepting: append, and drop the oldest when the capacity is used up. */
  function Admit(kept: seq<int>, limit: Limit, now: int): seq<int> {
    if |kept| < Capacity(limit) then kept + [now] else kept[1..] + [now]
  }

  lemma {:induction false} UpToExtends(past: seq<int>, clock: int, now: int)
    requires UpTo(past, clock) && clock <= now
    ensures UpTo(past + [now], now)
  {
  }

  /** One more time at the end of a history, and of what stands for it. */
  lemma {:induction false} SuffixExtends(past: seq<int>, kept: seq<int>, n: nat, now: int)
    requires n <= |past| && past == past[..n] + kept
    ensures (past + [now])[..n] == past[..n]
    ensures past + [now] == past[..n] + (kept + [now])
  {
  }

  lemma {:induction false} SuffixShifts(past: seq<int>, kept: seq<int>, n: nat, now: int)
    requires n < |past| && past == past[..n] + kept
    ensures (past + [now])[..n + 1] == past[..n + 1]
    ensures past + [now] == past[..n + 1] + (kept[1..] + [now])
  {
    assert past[n..] == kept;
  }

  lemma {:induction false} AcceptKeeps(kept: seq<int>, past: seq<int>, limit: Limit, clock: int, now: int)
    requires StandsFor(kept, past, limit, clock) && clock <= now
    ensures StandsFor(Admit(kept, limit, now), past + [now], limit, now)
  {
    UpToExtends(past, clock, now);
    hide UpTo;
    var n := |past| - |kept|;
    if |kept| < Capacity(limit) {
      SuffixExtends(past, kept, n, now);
    } else {
      SuffixShifts(past, kept, n, now);
    }
  }

  /** Time passing, and forgetting times that have left the window. */
  lemma {:induction false} ForgetKeeps(kept: seq<int>, past: seq<int>, limit: Limit, clock: int, now: int)
    requires StandsFor(kept, past, limit, clock) && clock <= now
    ensures StandsFor(kept, past, limit, now)
    ensures kept == [] || now - kept[|kept| - 1] >= limit.duration ==> StandsFor([], past, limit, now)
  {
  }

  // ---------------------------------------------------------------------
  // The in-memory limiter refines the specification
  // ---------------------------------------------------------------------

  ghost predicate MemRefines(store: Store, h: History, limits: string -> Limit, clock: int) {
    && NoEmptyQueue(store)
    && forall k :: StandsFor(Past(store, k), Past(h, k), limits(k), clock)
  }

  ghost predicate WindowsFitEviction(limits: string -> Limit, evictAfter: int) {
    forall k :: limits(k).duration <= evictAfter + 1
  }

  /** One key: a request. */
  lemma {:induction false} MemKeyRequest(store: Store, past: seq<int>, limit: Limit, key: string, clock: int, now: int)
    requires key in store ==> store[key] != []
    requires StandsFor(Past(store, key), past, limit, clock) && clock <= now
    ensures MemDecide(store, limit, key, now).Accepted? <==> CountWithin(past, now, limit.duration) < Capacity(limit)
    ensures var accepted := MemDecide(store, limit, key, now).Accepted?;
            StandsFor(if accepted then Enqueue(Past(store, key), limit, now) else Past(store, key),
                      if accepted then past + [now] else past, limit, now)
  {
    KeptDecides(Past(store, key), past, limit, clock, now);
    AcceptKeeps(Past(store, key), past, limit, clock, now);
    ForgetKeeps(Past(store, key), past, limit, clock, now);
  }

  lemma {:induction false} MemAge(store: Store, h: History, limits: string -> Limit, clock: int, now: int)
    requires MemRefines(store, h, limits, clock) && clock <= now
    ensures MemRefines(store, h, limits, now)
  {
    forall k ensures StandsFor(Past(store, k), Past(h, k), limits(k), now) {
      ForgetKeeps(Past(store, k), Past(h, k), limits(k), clock, now);
    }
  }

  lemma {:induction false} MemReplace(
    store: Store, h: History, limits: string -> Limit, now: int, key: string, queue: seq<int>, past: seq<int>)
    requires MemRefines(store, h, limits, now)
    requires queue != [] && StandsFor(queue, past, limits(key), now)
    ensures MemRefines(store[key := queue], h[key := past], limits, now)
  {
    hide StandsFor;
    forall k ensures StandsFor(Past(store[key := queue], k), Past(h[key := past], k), limits(k), now) {
      if k != key {
        assert Past(store[key := queue], k) == Past(store, k);
        assert Past(h[key := past], k) == Past(h, k);
      }
    }
  }

  lemma {:induction false} KeyRefines(store: Store, h: History, limits: string -> Limit, clock: int, key: string)
    requires MemRefines(store, h, limits, clock)
    ensures StandsFor(Past(store, key), Past(h, key), limits(key), clock)
  {
  }

  lemma {:induction false} MemRequestDecides(
    store: Store, h: History, limits: string -> Limit, clock: int, key: string, now: int)
    requires NoEmptyQueue(store) && MemRefines(store, h, limits, clock) && clock <= now
    ensures MemDecide(store, limits(key), key, now) == SpecDecide(h, limits(key), key, now)
  {
    KeyRefines(store, h, limits, clock, key);
    MemKeyRequest(store, Past(h, key), limits(key), key, clock, now);
  }

  lemma {:induction false} AcceptedKey(
    store: Store, h: History, limits: string -> Limit, clock: int, key: string, now: int)
    requires NoEmptyQueue(store) && MemRefines(store, h, limits, clock) && clock <= now
    requires MemDecide(store, limits(key), key, now).Accepted?
    ensures Enqueue(Past(store, key), limits(key), now) != []
    ensures StandsFor(Enqueue(Past(store, key), limits(key), now), Past(h, key) + [now], limits(key), now)
  {
    KeyRefines(store, h, limits, clock, key);
    MemKeyRequest(store, Past(h, key), limits(key), key, clock, now);
  }

  lemma {:induction false} MemRequestKeeps(
    store: Store, h: History, limits: string -> Limit, clock: int, key: string, now: int)
    requires NoEmptyQueue(store) && MemRefines(store, h, limits, clock) && clock <= now
    ensures MemRefines(MemRequest(store, limits(key), key, now),
                       Record(h, key, now, MemDecide(store, limits(key), key, now)), limits, now)
  {
    hide StandsFor, Enqueue, MemRefines;
    MemAge(store, h, limits, clock, now);
    if MemDecide(store, limits(key), key, now).Accepted? {
      AcceptedKey(store, h, limits, clock, key, now);
      MemReplace(store, h, limits, now, key, Enqueue(Past(store, key), limits(key), now), Past(h, key) + [now]);
    }
  }

  lemma {:induction false} MemClearRefines(
    store: Store, h: History, limits: string -> Limit, evictAfter: int, clock: int, now: int)
    requires MemRefines(store, h, limits, clock) && clock <= now && WindowsFitEviction(limits, evictAfter)
    ensures MemRefines(MemClear(store, evictAfter, now), h, limits, now)
  {
    var store' := MemClear(store, evictAfter, now);
    forall k ensures StandsFor(Past(store', k), Past(h, k), limits(k), now) {
      assert limits(k).duration <= evictAfter + 1;
      ForgetKeeps(Past(store, k), Past(h, k), limits(k), clock, now);
      assert Past(store', k) == Past(store, k) || Past(store', k) == [];
    }
  }

  /** From related states, every decision of every ordered run agrees. */
  lemma {:induction false} MemRunRefines(
    store: Store, h: History, limits: string -> Limit, evictAfter: int, clock: int, run: seq<Event>)
    requires MemRefines(store, h, limits, clock) && Ordered(run, clock)
    requires (exists e :: e in run && e.Clear?) ==> WindowsFitEviction(limits, evictAfter)
    ensures MemRun(store, limits, evictAfter, run) == SpecRun(h, limits, run)
    decreases |run|
  {
    hide StandsFor, SpecDecide, MemDecide;
    if run != [] {
      var e := run[0];
      assert e in run;
      assert forall f :: f in run[1..] ==> f in run;
      match e
      case Request(key, now) =>
        MemRequestDecides(store, h, limits, clock, key, now);
        MemRequestKeeps(store, h, limits, clock, key, now);
        MemRunRefines(MemRequest(store, limits(key), key, now),
                      Record(h, key, now, SpecDecide(h, limits(key), key, now)), limits, evictAfter, now, run[1..]);
      case Clear(now) =>
        MemClearRefines(store, h, limits, evictAfter, clock, now);
        MemRunRefines(MemClear(store, evictAfter, now), h, limits, evictAfter, now, run[1..]);
    }
  }

  /** `n` requests at once for a fresh key are all accepted, up to the capacity. */
  function Burst(key: string, now: int, n: nat): (run: seq<Event>)
    ensures |run| == n
  {
    if n == 0 then [] else [Request(key, now)] + Burst(key, now, n - 1)
  }

  lemma {:induction false} BurstOrdered(key: string, now: int, n: nat, tail: seq<Event>)
    requires Ordered(tail, now)
    ensures Ordered(Burst(key, now, n) + tail, now)
  {
    if n > 0 {
      BurstOrdered(key, now, n - 1, tail);
      assert (Burst(key, now, n) + tail)[1..] == Burst(key, now, n - 1) + tail;
    } else {
      assert Burst(key, now, n) + tail == tail;
    }
  }

  function Copies(now: int, n: nat): (times: seq<int>)
    ensures |times| == n && forall i :: 0 <= i < n ==> times[i] == now
  {
    if n == 0 then [] else Copies(now, n - 1) + [now]
  }

  function Accepts(n: nat): (ds: seq<Decision>)
    ensures |ds| == n
  {
    if n == 0 then [] else [Accepted] + Accepts(n - 1)
  }

  lemma {:induction false} SpecBurstStep(h: History, limit: Limit, key: string, now: int, done: nat)
    requires Past(h, key) == Copies(now, done) && done < Capacity(limit)
    ensures SpecDecide(h, limit, key, now).Accepted?
    ensures Past(Record(h, key, now, Accepted), key) == Copies(now, done + 1)
  {
    CountBounds(Past(h, key), now, limit.duration);
  }

  /** The burst taken apart. */
  lemma {:induction false} BurstHead(key: string, now: int, n: nat, tail: seq<Event>, ds: seq<Decision>)
    requires n > 0
    ensures var run := Burst(key, now, n) + tail;
            && run[0] == Request(key, now) && run[1..] == Burst(key, now, n - 1) + tail
            && [Accepted] + (Accepts(n - 1) + ds) == Accepts(n) + ds
  {
  }

  lemma {:induction false} BurstEmpty(key: string, now: int, tail: seq<Event>, ds: seq<Decision>)
    ensures Burst(key, now, 0) + tail == tail && Accepts(0) + ds == ds
  {
  }

  lemma {:induction false} SpecBurst(
    h: History, limits: string -> Limit, key: string, now: int, n: nat, done: nat, tail: seq<Event>)
    returns (h': History)
    requires Past(h, key) == Copies(now, done) && done + n <= Capacity(limits(key))
    ensures Past(h', key) == Copies(now, done + n)
    ensures SpecRun(h, limits, Burst(key, now, n) + tail) == Accepts(n) + SpecRun(h', limits, tail)
    decreases n
  {
    hide Copies, SpecDecide, Record, Burst, Accepts;
    if n == 0 {
      BurstEmpty(key, now, tail, SpecRun(h, limits, tail));
      h' := h;
    } else {
      SpecBurstStep(h, limits(key), key, now, done);
      h' := SpecBurst(Record(h, key, now, Accepted), limits, key, now, n - 1, done + 1, tail);
      BurstHead(key, now, n, tail, SpecRun(h', limits, tail));
    }
  }

  lemma {:induction false} MemBurstStep(store: Store, limit: Limit, key: string, now: int, done: nat)
    requires NoEmptyQueue(store) && Past(store, key) == Copies(now, done) && done < Capacity(limit)
    ensures MemDecide(store, limit, key, now).Accepted?
    ensures NoEmptyQueue(MemRequest(store, limit, key, now))
    ensures Past(MemRequest(store, limit, key, now), key) == Copies(now, done + 1)
  {
    assert Enqueue(Copies(now, done), limit, now) == Copies(now, done) + [now];
  }

  lemma {:induction false} QueueNotEmpty(store: Store, key: string)
    requires NoEmptyQueue(store)
    ensures key in store ==> store[key] != []
  {
  }

  lemma {:induction false} MemRunHead(
    store: Store, limits: string -> Limit, evictAfter: int, key: string, now: int, run: seq<Event>)
    requires NoEmptyQueue(store) && (key in store ==> store[key] != [])
    requires run != [] && run[0] == Request(key, now)
    requires NoEmptyQueue(MemRequest(store, limits(key), key, now))
    ensures MemRun(store, limits, evictAfter, run) ==
              [MemDecide(store, limits(key), key, now)]
              + MemRun(MemRequest(store, limits(key), key, now), limits, evictAfter, run[1..])
  {
    hide NoEmptyQueue, MemDecide, MemRequest;
  }

  lemma {:induction false} MemBurst(
    store: Store, limits: string -> Limit, evictAfter: int, key: string, now: int, n: nat, done: nat, tail: seq<Event>)
    returns (store': Store)
    requires NoEmptyQueue(store)
    requires Past(store, key) == Copies(now, done) && done + n <= Capacity(limits(key))
    ensures NoEmptyQueue(store') && Past(store', key) == Copies(now, done + n)
    ensures MemRun(store, limits, evictAfter, Burst(key, now, n) + tail) ==
              Accepts(n) + MemRun(store', limits, evictAfter, tail)
    decreases n
  {
    hide Copies, MemDecide, MemRequest, NoEmptyQueue, MemRun, Burst, Accepts, Past;
    if n == 0 {
      BurstEmpty(key, now, tail, MemRun(store, limits, evictAfter, tail));
      store' := store;
    } else {
      QueueNotEmpty(store, key);
      MemBurstStep(store, limits(key), key, now, done);
      var next := MemRequest(store, limits(key), key, now);
      store' := MemBurst(next, limits, evictAfter, key, now, n - 1, done + 1, tail);
      BurstHead(key, now, n, tail, MemRun(store', limits, evictAfter, tail));
      MemRunHead(store, limits, evictAfter, key, now, Burst(key, now, n) + tail);
    }
  }

  /** The run that separates eviction from history: fill the window, evict, ask again. */
  function EvictionWitness(key: string, capacity: nat, evictAfter: int): seq<Event> {
    Burst(key, 0, capacity) + [Clear(evictAfter + 1), Request(key, evictAfter + 1)]
  }

  /** With a window longer than that, one request too many is let through: the
      window is full, and the evicted key starts over. */
  lemma {:induction false} EvictionTooEarly(limits: string -> Limit, evictAfter: nat, key: string)
    requires limits(key).duration > evictAfter + 1
    ensures var c := Capacity(limits(key));
            var run := EvictionWitness(key, c, evictAfter);
            && Ordered(run, 0)
            && SpecRun(map[], limits, run) == Accepts(c) + [Rejected]
            && MemRun(map[], limits, evictAfter, run) == Accepts(c) + [Accepted]
  {
    var c := Capacity(limits(key));
    var later := evictAfter + 1;
    var tail := [Clear(later), Request(key, later)];
    assert tail[1..] == [Request(key, later)] && tail[1..][1..] == [];
    assert Ordered(tail[1..][1..], later);
    assert Ordered(tail[1..], later);
    BurstOrdered(key, 0, c, tail);
    hide SpecRun, MemRun, Ordered;
    var h := SpecBurst(map[], limits, key, 0, c, 0, tail);
    var store := MemBurst(map[], limits, evictAfter, key, 0, c, 0, tail);
    FullWindowRejects(h, limits, key, c, later);
    EvictedKeyAccepts(store, limits, evictAfter, key, c, later);
  }

  lemma {:induction false} FullWindowRejects(h: History, limits: string -> Limit, key: string, c: nat, later: int)
    requires Past(h, key) == Copies(0, c) && c >= Capacity(limits(key)) && later < limits(key).duration
    ensures SpecRun(h, limits, [Clear(later), Request(key, later)]) == [Rejected]
  {
    var tail := [Clear(later), Request(key, later)];
    CountBounds(Copies(0, c), later, limits(key).duration);
    assert tail[1..] == [Request(key, later)];
    SpecSingle(h, limits, key, later);
  }

  lemma {:induction false} SpecSingle(h: History, limits: string -> Limit, key: string, now: int)
    ensures SpecRun(h, limits, [Request(key, now)]) == [SpecDecide(h, limits(key), key, now)]
  {
    hide SpecDecide, Record;
    assert [Request(key, now)][1..] == [];
  }

  lemma {:induction false} EvictedKeyAccepts(
    store: Store, limits: string -> Limit, evictAfter: int, key: string, c: nat, later: int)
    requires NoEmptyQueue(store) && Past(store, key) == Copies(0, c) && later > evictAfter
    ensures MemRun(store, limits, evictAfter, [Clear(later), Request(key, later)]) == [Accepted]
  {
    var tail := [Clear(later), Request(key, later)];
    assert tail[1..] == [Request(key, later)] && tail[1..][1..] == [];
    var after := MemStep(store, limits, evictAfter, tail[0]);
    assert key !in after;
    hide MemClear;
    assert MemRun(after, limits, evictAfter, tail[1..]) == [Accepted];
  }

  /** The limiter with eviction, started empty, is the history limiter counting
      against the capacity on every ordered run exactly when no window outlasts
      the eviction time by more than a second. */
  lemma {:induction false} MemoryLimiterCapacity(limits: string -> Limit, evictAfter: nat)
    ensures (forall run :: Ordered(run, 0) ==>
               MemRun(map[], limits, evictAfter, run) == SpecRun(map[], limits, run))
            <==> WindowsFitEviction(limits, evictAfter)
  {
    if WindowsFitEviction(limits, evictAfter) {
      forall run | Ordered(run, 0)
        ensures MemRun(map[], limits, evictAfter, run) == SpecRun(map[], limits, run)
      {
        MemRunRefines(map[], map[], limits, evictAfter, 0, run);
      }
    } else {
      var key :| limits(key).duration > evictAfter + 1;
      EvictionTooEarly(limits, evictAfter, key);
      LastDiffers(Accepts(Capacity(limits(key))), Accepted, Rejected);
    }
  }

  lemma {:induction false} LastDiffers(ds: seq<Decision>, d: Decision, e: Decision)
    requires d != e
    ensures ds + [d] != ds + [e]
  {
    assert (ds + [d])[|ds|] == d;
  }

  /** Without eviction (a non-positive expiration starts no cleaner) the
      limiter is exact for every window. */
  lemma {:induction false} MemoryLimiterExactWithoutEviction(
    limits: string -> Limit, evictAfter: int, run: seq<Event>)
    requires Ordered(run, 0) && forall e :: e in run ==> e.Request?
    ensures MemRun(map[], limits, evictAfter, run) == SpecRun(map[], limits, run)
  {
    MemRunRefines(map[], map[], limits, evictAfter, 0, run);
  }

  // ---------------------------------------------------------------------
  // The limit as promised
  // ---------------------------------------------------------------------

  /** The promise: fewer than the maximum of the accepted requests lie within
      the window.  A maximum of 0 admits nothing. */
  function StrictDecide(h: History, limit: Limit, key: string, now: int): Decision {
    if CountWithin(Past(h, key), now, limit.duration) < limit.maxRequests then Accepted else Rejected
  }

  function StrictRun(h: History, limits: string -> Limit, run: seq<Event>): seq<Decision>
    decreases |run|
  {
    if run == [] then []
    else match run[0]
      case Clear(_) => StrictRun(h, limits, run[1..])
      case Request(key, now) =>
        var d := StrictDecide(h, limits(key), key, now);
        [d] + StrictRun(Record(h, key, now, d), limits, run[1..])
  }

  ghost predicate Positive(limits: string -> Limit, e: Event) { e.Request? ==> limits(e.key).maxRequests >= 1 }

  /** Capacity and maximum are the same as long as only keys with a positive
      maximum are asked about. */
  lemma {:induction false} StrictIsSpec(h: History, limits: string -> Limit, run: seq<Event>)
    requires forall e :: e in run ==> Positive(limits, e)
    ensures StrictRun(h, limits, run) == SpecRun(h, limits, run)
    decreases |run|
  {
    hide CountWithin;
    if run != [] {
      var e := run[0];
      assert e in run && forall f :: f in run[1..] ==> f in run;
      assert Positive(limits, e);
      match e
      case Clear(_) => StrictIsSpec(h, limits, run[1..]);
      case Request(key, now) =>
        StrictIsSpec(Record(h, key, now, SpecDecide(h, limits(key), key, now)), limits, run[1..]);
    }
  }

  /** A maximum of 0 still lets the first request of a key through. */
  lemma {:induction false} ZeroMaximumAdmitsOne(limits: string -> Limit, evictAfter: int, key: string, now: int)
    requires limits(key).maxRequests == 0
    ensures MemRun(map[], limits, evictAfter, [Request(key, now)]) == [Accepted]
    ensures StrictRun(map[], limits, [Request(key, now)]) == [Rejected]
  {
    var run := [Request(key, now)];
    assert run[1..] == [];
  }

  lemma {:induction false} SingleOrdered(key: string)
    ensures Ordered([Request(key, 0)], 0)
  {
    assert [Request(key, 0)][1..] == [];
  }

  /** The limiter with eviction, started empty, keeps the promise on every
      ordered run exactly when no window outlasts the eviction time by more than
      a second and every maximum is at least 1. */
  lemma {:induction false} MemoryLimiterExact(limits: string -> Limit, evictAfter: nat)
    ensures (forall run :: Ordered(run, 0) ==>
               MemRun(map[], limits, evictAfter, run) == StrictRun(map[], limits, run))
            <==> WindowsFitEviction(limits, evictAfter) && forall k :: limits(k).maxRequests >= 1
  {
    if key :| limits(key).maxRequests == 0 {
      ZeroMaximumAdmitsOne(limits, evictAfter, key, 0);
      SingleOrdered(key);
    } else {
      MemoryLimiterCapacity(limits, evictAfter);
      forall run ensures StrictRun(map[], limits, run) == SpecRun(map[], limits, run) {
        StrictIsSpec(map[], limits, run);
      }
    }
  }

  // ---------------------------------------------------------------------
  // What the specification itself guarantees
  // ---------------------------------------------------------------------

  /** Any `capacity + 1` consecutive accepted requests span at least a window,
      so no window of `duration` seconds holds more than the capacity. */
  ghost predicate Spaced(times: seq<int>, limit: Limit) {
    forall i :: 0 <= i && i + Capacity(limit) < |times| ==> times[i + Capacity(limit)] - times[i] >= limit.duration
  }

  /** A history at some time: in order, spaced, and not ahead of the clock. */
  ghost predicate Paced(times: seq<int>, limit: Limit, clock: int) { UpTo(times, clock) && Spaced(times, limit) }

  /** The oldest of the last `capacity` times has left the window when fewer
      than that many are in it. */
  lemma {:induction false} OldestHasLeft(times: seq<int>, limit: Limit, now: int)
    requires Sorted(times) && |times| >= Capacity(limit)
    requires CountWithin(times, now, limit.duration) < Capacity(limit)
    ensures now - times[|times| - Capacity(limit)] >= limit.duration
  {
    var i := |times| - Capacity(limit);
    assert times == times[..i] + times[i..];
    FullDecides(times[..i], times[i..], limit, now);
  }

  lemma {:induction false} SpacedExtends(times: seq<int>, limit: Limit, clock: int, now: int)
    requires Paced(times, limit, clock) && clock <= now
    requires CountWithin(times, now, limit.duration) < Capacity(limit)
    ensures Paced(times + [now], limit, now)
  {
    hide CountWithin;
    UpToExtends(times, clock, now);
    var c := Capacity(limit);
    if |times| >= c { OldestHasLeft(times, limit, now); }
    hide UpTo;
    forall i | 0 <= i && i + c < |times + [now]|
      ensures (times + [now])[i + c] - (times + [now])[i] >= limit.duration
    {
      if i + c < |times| { assert times[i + c] - times[i] >= limit.duration; }
    }
  }

  ghost predicate AllPaced(h: History, limits: string -> Limit, clock: int) {
    forall k :: Paced(Past(h, k), limits(k), clock)
  }

  lemma {:induction false} PacedAges(times: seq<int>, limit: Limit, clock: int, now: int)
    requires Paced(times, limit, clock) && clock <= now
    ensures Paced(times, limit, now)
  {
  }

  lemma {:induction false} RecordPaced(h: History, limits: string -> Limit, clock: int, key: string, now: int)
    requires AllPaced(h, limits, clock) && clock <= now
    ensures AllPaced(Record(h, key, now, SpecDecide(h, limits(key), key, now)), limits, now)
  {
    hide Paced, CountWithin;
    var h' := Record(h, key, now, SpecDecide(h, limits(key), key, now));
    forall k ensures Paced(Past(h', k), limits(k), now) {
      assert Paced(Past(h, k), limits(k), clock);
      PacedAges(Past(h, k), limits(k), clock, now);
      if k == key && SpecDecide(h, limits(key), key, now).Accepted? {
        SpacedExtends(Past(h, k), limits(k), clock, now);
      } else {
        assert Past(h', k) == Past(h, k);
      }
    }
  }

  lemma {:induction false} WindowsNeverOverfull(h: History, limits: string -> Limit, clock: int, run: seq<Event>)
    requires Ordered(run, clock) && AllPaced(h, limits, clock)
    ensures forall k :: Spaced(Past(SpecHistory(h, limits, run), k), limits(k))
    decreases |run|
  {
    if run == [] {
      assert forall k :: Paced(Past(h, k), limits(k), clock);
    } else {
      hide AllPaced, SpecDecide, Record, Spaced;
      match run[0]
      case Clear(now) =>
        EverybodyAges(h, limits, clock, now);
        WindowsNeverOverfull(h, limits, now, run[1..]);
      case Request(key, now) =>
        RecordPaced(h, limits, clock, key, now);
        WindowsNeverOverfull(Record(h, key, now, SpecDecide(h, limits(key), key, now)), limits, now, run[1..]);
    }
  }

  lemma {:induction false} EverybodyAges(h: History, limits: string -> Limit, clock: int, now: int)
    requires AllPaced(h, limits, clock) && clock <= now
    ensures AllPaced(h, limits, now)
  {
    hide Paced;
    forall k ensures Paced(Past(h, k), limits(k), now) {
      PacedAges(Past(h, k), limits(k), clock, now);
    }
  }

  /** Started empty, no run ever lets a window hold more than its capacity. */
  lemma {:induction false} NoWindowOverfull(limits: string -> Limit, run: seq<Event>, key: string)
    requires Ordered(run, 0)
    ensures Spaced(Past(SpecHistory(map[], limits, run), key), limits(key))
  {
    WindowsNeverOverfull(map[], limits, 0, run);
  }

  // ---------------------------------------------------------------------
  // The Redis-list limiter
  // ---------------------------------------------------------------------

  /** A Redis list, newest first, with the second at which it expires. */
  datatype Entry = Entry(items: seq<int>, expireAt: int)

  type Lists = map<string, Entry>

  /** What LLEN, LINDEX and LTRIM see: nothing once the entry has expired. */
  function Live(lists: Lists, key: string, now: int): seq<int> {
    if key in lists && now < lists[key].expireAt then lists[key].items else []
  }

  function RedisDecide(lists: Lists, limit: Limit, key: string, now: int): Decision {
    var items := Live(lists, key, now);
    if |items| < limit.maxRequests then Accepted
    else if items == [] then ServerError  // LINDEX of a missing list does not parse as a time
    else if now - items[|items| - 1] < limit.duration then Rejected
    else Accepted
  }

  /** LTRIM key 0 stop, for a stop of -1 or more: -1 is the last element. */
  function TrimTo(items: seq<int>, stop: int): seq<int>
    requires stop >= -1
  {
    if 0 <= stop && stop + 1 < |items| then items[..stop + 1] else items
  }

  /** The list an accepted request leaves behind: LPUSH, and LTRIM when full. */
  function Push(items: seq<int>, limit: Limit, now: int): seq<int> {
    if |items| < limit.maxRequests then [now] + items else TrimTo([now] + items, limit.maxRequests - 1)
  }

  function RedisRequest(lists: Lists, limit: Limit, key: string, now: int, ttl: nat): Lists
  {
    var items := Live(lists, key, now);
    match RedisDecide(lists, limit, key, now)
    case ServerError => lists
    case Rejected => lists[key := Entry(items, now + ttl)]
    case Accepted => lists[key := Entry(Push(items, limit, now), now + ttl)]
  }

  /** The Redis limiter has no eviction pass; keys expire by themselves. */
  function RedisRun(lists: Lists, limits: string -> Limit, ttl: nat, run: seq<Event>): seq<Decision>
    decreases |run|
  {
    if run == [] then []
    else match run[0]
      case Clear(_) => RedisRun(lists, limits, ttl, run[1..])
      case Request(key, now) =>
        [RedisDecide(lists, limits(key), key, now)]
        + RedisRun(RedisRequest(lists, limits(key), key, now, ttl), limits, ttl, run[1..])
  }

  function Reverse(s: seq<int>): (r: seq<int>)
    ensures |r| == |s|
    ensures s != [] ==> r[0] == s[|s| - 1] && r[|r| - 1] == s[0]
  {
    if s == [] then [] else Reverse(s[1..]) + [s[0]]
  }

  ghost predicate WindowsFitTtl(limits: string -> Limit, ttl: int) {
    forall k :: limits(k).duration <= ttl && limits(k).maxRequests >= 1
  }

  /** The entry's times, reversed, stand for the history, and it outlives its
      newest time by at least the time to live. */
  ghost predicate EntryRefines(e: Entry, past: seq<int>, limit: Limit, ttl: nat, clock: int) {
    && StandsFor(Reverse(e.items), past, limit, clock)
    && (e.items != [] ==> e.items[0] + ttl <= e.expireAt)
  }

  ghost predicate RedisRefines(lists: Lists, h: History, limits: string -> Limit, ttl: nat, clock: int) {
    forall k :: EntryRefines(EntryAt(lists, k), Past(h, k), limits(k), ttl, clock)
  }

  /** One key: reading the live list. */
  lemma {:induction false} LiveKey(e: Entry, past: seq<int>, limit: Limit, ttl: nat, clock: int, now: int)
    requires EntryRefines(e, past, limit, ttl, clock) && limit.duration <= ttl && clock <= now
    ensures StandsFor(Reverse(e.items), past, limit, now) && |e.items| <= Capacity(limit)
    ensures e.expireAt <= now ==> StandsFor([], past, limit, now)
  {
    ForgetKeeps(Reverse(e.items), past, limit, clock, now);
  }

  lemma {:induction false} ReverseSnoc(items: seq<int>, last: int)
    ensures Reverse(items + [last]) == [last] + Reverse(items)
  {
    if items == [] {
      assert items + [last] == [last];
    } else {
      ReverseSnoc(items[1..], last);
      assert (items + [last])[1..] == items[1..] + [last];
    }
  }

  /** Pushing and trimming the list is admitting at the end of the queue. */
  lemma {:induction false} ReverseAdmits(items: seq<int>, limit: Limit, now: int)
    requires |items| <= limit.maxRequests && limit.maxRequests >= 1
    ensures Reverse(Push(items, limit, now)) == Admit(Reverse(items), limit, now)
  {
    var c := limit.maxRequests;
    if |items| < c {
      assert ([now] + items)[1..] == items;
    } else {
      var init := items[..c - 1];
      ReverseSnoc(init, items[c - 1]);
      assert items == init + [items[c - 1]];
      assert ([now] + items)[..c] == [now] + init;
      assert ([now] + init)[1..] == init;
    }
  }

  /** One key: pushing the new time, and trimming a full list. */
  lemma {:induction false} PushKey(items: seq<int>, past: seq<int>, limit: Limit, ttl: nat, now: int)
    requires StandsFor(Reverse(items), past, limit, now) && limit.maxRequests >= 1 && |items| <= limit.maxRequests
    ensures EntryRefines(Entry(Push(items, limit, now), now + ttl), past + [now], limit, ttl, now)
  {
    hide StandsFor, Reverse;
    AcceptKeeps(Reverse(items), past, limit, now, now);
    ReverseAdmits(items, limit, now);
  }

  lemma {:induction false} NewestIsPast(kept: seq<int>, past: seq<int>, limit: Limit, now: int)
    requires StandsFor(kept, past, limit, now)
    ensures kept != [] ==> kept[|kept| - 1] <= now
  {
    assert kept != [] ==> kept[|kept| - 1] == past[|past| - 1];
  }

  function EntryAt(lists: Lists, key: string): Entry {
    if key in lists then lists[key] else Entry([], 0)
  }

  /** The list a request sees stands for the key's history. */
  lemma {:induction false} LiveRefines(
    lists: Lists, h: History, limits: string -> Limit, ttl: nat, clock: int, key: string, now: int)
    requires RedisRefines(lists, h, limits, ttl, clock) && WindowsFitTtl(limits, ttl) && clock <= now
    ensures var items := Live(lists, key, now);
            && StandsFor(Reverse(items), Past(h, key), limits(key), now)
            && |items| <= limits(key).maxRequests
            && (items != [] ==> items[0] <= now)
  {
    assert Reverse([]) == [];
    LiveKey(EntryAt(lists, key), Past(h, key), limits(key), ttl, clock, now);
    NewestIsPast(Reverse(Live(lists, key, now)), Past(h, key), limits(key), now);
  }

  lemma {:induction false} OtherKeysAge(
    lists: Lists, h: History, limits: string -> Limit, ttl: nat, clock: int, now: int)
    requires RedisRefines(lists, h, limits, ttl, clock) && clock <= now
    ensures RedisRefines(lists, h, limits, ttl, now)
  {
    forall k ensures EntryRefines(EntryAt(lists, k), Past(h, k), limits(k), ttl, now) {
      ForgetKeeps(Reverse(EntryAt(lists, k).items), Past(h, k), limits(k), clock, now);
    }
  }

  lemma {:induction false} RedisReplace(
    lists: Lists, h: History, limits: string -> Limit, ttl: nat, now: int, key: string, e: Entry, past: seq<int>)
    requires RedisRefines(lists, h, limits, ttl, now)
    requires EntryRefines(e, past, limits(key), ttl, now)
    ensures RedisRefines(lists[key := e], h[key := past], limits, ttl, now)
  {
    hide EntryRefines;
    forall k ensures EntryRefines(EntryAt(lists[key := e], k), Past(h[key := past], k), limits(k), ttl, now) {
      if k != key {
        assert EntryAt(lists[key := e], k) == EntryAt(lists, k);
        assert Past(h[key := past], k) == Past(h, k);
      }
    }
  }

  lemma {:induction false} RedisReplaceEntry(
    lists: Lists, h: History, limits: string -> Limit, ttl: nat, now: int, key: string, e: Entry)
    requires RedisRefines(lists, h, limits, ttl, now)
    requires EntryRefines(e, Past(h, key), limits(key), ttl, now)
    ensures RedisRefines(lists[key := e], h, limits, ttl, now)
  {
    hide EntryRefines;
    forall k ensures EntryRefines(EntryAt(lists[key := e], k), Past(h, k), limits(k), ttl, now) {
      if k != key { assert EntryAt(lists[key := e], k) == EntryAt(lists, k); }
    }
  }

  lemma {:induction false} RedisRequestRefines(
    lists: Lists, h: History, limits: string -> Limit, ttl: nat, clock: int, key: string, now: int)
    requires RedisRefines(lists, h, limits, ttl, clock) && WindowsFitTtl(limits, ttl) && clock <= now
    ensures RedisDecide(lists, limits(key), key, now) == SpecDecide(h, limits(key), key, now)
    ensures RedisRefines(RedisRequest(lists, limits(key), key, now, ttl),
                         Record(h, key, now, SpecDecide(h, limits(key), key, now)), limits, ttl, now)
  {
    hide StandsFor, Reverse, CountWithin, RedisRefines, Push;
    var items := Live(lists, key, now);
    var limit := limits(key);
    var past := Past(h, key);
    LiveRefines(lists, h, limits, ttl, clock, key, now);
    OtherKeysAge(lists, h, limits, ttl, clock, now);
    KeptDecides(Reverse(items), past, limit, now, now);
    if RedisDecide(lists, limit, key, now).Accepted? {
      PushKey(items, past, limit, ttl, now);
      RedisReplace(lists, h, limits, ttl, now, key, Entry(Push(items, limit, now), now + ttl), past + [now]);
    } else {
      RedisReplaceEntry(lists, h, limits, ttl, now, key, Entry(items, now + ttl));
    }
  }

  lemma {:induction false} RedisRunRefines(
    lists: Lists, h: History, limits: string -> Limit, ttl: nat, clock: int, run: seq<Event>)
    requires RedisRefines(lists, h, limits, ttl, clock) && WindowsFitTtl(limits, ttl) && Ordered(run, clock)
    ensures RedisRun(lists, limits, ttl, run) == SpecRun(h, limits, run)
    decreases |run|
  {
    hide RedisRefines, SpecDecide, RedisDecide, RedisRequest, Record;
    if run != [] {
      match run[0]
      case Request(key, now) =>
        RedisRequestRefines(lists, h, limits, ttl, clock, key, now);
        RedisRunRefines(RedisRequest(lists, limits(key), key, now, ttl),
                        Record(h, key, now, SpecDecide(h, limits(key), key, now)), limits, ttl, now, run[1..]);
      case Clear(now) =>
        OtherKeysAge(lists, h, limits, ttl, clock, now);
        RedisRunRefines(lists, h, limits, ttl, now, run[1..]);
    }
  }

  /** The entry a burst of `n` requests at `now` leaves behind. */
  ghost predicate Burstful(lists: Lists, key: string, now: int, ttl: nat, n: nat) {
    EntryAt(lists, key).items == Copies(now, n) && (n > 0 ==> EntryAt(lists, key).expireAt == now + ttl)
  }

  lemma {:induction false} RedisBurstStep(lists: Lists, limit: Limit, ttl: nat, key: string, now: int, done: nat)
    requires Burstful(lists, key, now, ttl, done) && done < limit.maxRequests && ttl > 0
    ensures RedisDecide(lists, limit, key, now).Accepted?
    ensures Burstful(RedisRequest(lists, limit, key, now, ttl), key, now, ttl, done + 1)
  {
    assert Live(lists, key, now) == Copies(now, done);
    assert [now] + Copies(now, done) == Copies(now, done + 1);
    assert Push(Copies(now, done), limit, now) == Copies(now, done + 1);
  }

  lemma {:induction false} RedisBurst(
    lists: Lists, limits: string -> Limit, ttl: nat, key: string, now: int, n: nat, done: nat, tail: seq<Event>)
    returns (lists': Lists)
    requires Burstful(lists, key, now, ttl, done) && done + n <= limits(key).maxRequests && ttl > 0
    ensures Burstful(lists', key, now, ttl, done + n)
    ensures RedisRun(lists, limits, ttl, Burst(key, now, n) + tail) == Accepts(n) + RedisRun(lists', limits, ttl, tail)
    decreases n
  {
    hide Burstful, RedisDecide, RedisRequest;
    var run := Burst(key, now, n) + tail;
    if n == 0 {
      assert run == tail;
      lists' := lists;
    } else {
      assert run[1..] == Burst(key, now, n - 1) + tail;
      RedisBurstStep(lists, limits(key), ttl, key, now, done);
      var next := RedisRequest(lists, limits(key), key, now, ttl);
      lists' := RedisBurst(next, limits, ttl, key, now, n - 1, done + 1, tail);
    }
  }

  /** With a window longer than the time to live, one request too many is let
      through: the window is full, and the expired list starts over. */
  lemma {:induction false} ExpiryTooEarly(limits: string -> Limit, ttl: nat, key: string)
    requires limits(key).maxRequests >= 1 && limits(key).duration > ttl && ttl > 0
    ensures var c := limits(key).maxRequests;
            var run := Burst(key, 0, c) + [Request(key, ttl)];
            && Ordered(run, 0)
            && SpecRun(map[], limits, run) == Accepts(c) + [Rejected]
            && RedisRun(map[], limits, ttl, run) == Accepts(c) + [Accepted]
  {
    var c := limits(key).maxRequests;
    var tail := [Request(key, ttl)];
    assert tail[1..] == [] && Ordered(tail[1..], ttl);
    BurstOrdered(key, 0, c, tail);
    var h := SpecBurst(map[], limits, key, 0, c, 0, tail);
    var lists := RedisBurst(map[], limits, ttl, key, 0, c, 0, tail);
    CountBounds(Copies(0, c), ttl, limits(key).duration);
    assert SpecRun(h, limits, tail) == [Rejected];
    assert Live(lists, key, ttl) == [];
    assert RedisRun(lists, limits, ttl, tail) == [Accepted];
  }

  /** With a maximum of 0 the first request is a server error. */
  lemma {:induction false} ZeroMaximumErrs(limits: string -> Limit, ttl: nat, key: string, now: int)
    requires limits(key).maxRequests == 0
    ensures RedisRun(map[], limits, ttl, [Request(key, now)]) == [ServerError]
    ensures StrictRun(map[], limits, [Request(key, now)]) == [Rejected]
  {
    var run := [Request(key, now)];
    assert run[1..] == [];
  }

  /** The Redis limiter, started empty, keeps the promise on every ordered run
      exactly when every maximum is at least 1 and no window outlasts the list's
      time to live. */
  lemma {:induction false} RedisLimiterExact(limits: string -> Limit, ttl: nat)
    requires ttl > 0
    ensures (forall run :: Ordered(run, 0) ==> RedisRun(map[], limits, ttl, run) == StrictRun(map[], limits, run))
            <==> WindowsFitTtl(limits, ttl)
  {
    if key :| limits(key).maxRequests == 0 {
      ZeroMaximumErrs(limits, ttl, key, 0);
      SingleOrdered(key);
    } else {
      forall run ensures StrictRun(map[], limits, run) == SpecRun(map[], limits, run) {
        StrictIsSpec(map[], limits, run);
      }
      if key :| limits(key).duration > ttl {
        ExpiryTooEarly(limits, ttl, key);
        LastDiffers(Accepts(limits(key).maxRequests), Accepted, Rejected);
      } else {
        forall run | Ordered(run, 0)
          ensures RedisRun(map[], limits, ttl, run) == SpecRun(map[], limits, run)
        {
          RedisRunRefines(map[], map[], limits, ttl, 0, run);
        }
      }
    }
  }

  /** The two limiters decide every ordered run alike: the middleware may use
      either, whatever the cleaner and the key expiry do in between. */
  lemma {:induction false} LimitersAgree(limits: string -> Limit, evictAfter: nat, run: seq<Event>)
    requires WindowsFitTtl(limits, evictAfter) && Ordered(run, 0)
    ensures MemRun(map[], limits, evictAfter, run) == RedisRun(map[], limits, evictAfter, run)
  {
    MemRunRefines(map[], map[], limits, evictAfter, 0, run);
    RedisRunRefines(map[], map[], limits, evictAfter, 0, run);
  }

  // ---------------------------------------------------------------------
  // The code itself
  // ---------------------------------------------------------------------

  class InMemoryRateLimiter {
    var store: Store
    const evictAfter: nat  // int64(expirationDuration.Seconds())

    ghost predicate Valid()
      reads this
    {
      NoEmptyQueue(store)
    }

    constructor (evictAfter: nat)
      ensures Valid() && store == map[] && this.evictAfter == evictAfter
    {
      store := map[];
      this.evictAfter := evictAfter;
    }

    method Request(key: string, maxRequestNum: nat, duration: int, now: int) returns (ok: bool)
      requires Valid()
      modifies this
      ensures Valid()
      ensures ok <==> MemDecide(old(store), Limit(maxRequestNum, duration), key, now).Accepted?
      ensures store == MemRequest(old(store), Limit(maxRequestNum, duration), key, now)
      ensures if key !in old(store) then ok && store == old(store)[key := [now]]
              else
                var queue := old(store)[key];
                if |queue| < maxRequestNum then ok && store == old(store)[key := queue + [now]]
                else if now - queue[0] >= duration then ok && store == old(store)[key := queue[1..] + [now]]
                else !ok && store == old(store)
    {
      if key in store {
        var queue := store[key];
        if |queue| < maxRequestNum {
          store := store[key := queue + [now]];
          return true;
        } else if now - queue[0] >= duration {
          queue := queue[1..];
          queue := queue + [now];
          store := store[key := queue];
          return true;
        } else {
          return false;
        }
      } else {
        store := store[key := []];
        store := store[key := store[key] + [now]];
        assert store[key] == [now];
        assert store == old(store)[key := [now]];
      }
      return true;
    }

    /** One pass of the background cleaner; the map's keys come in any order. */
    method ClearExpiredItems(now: int)
      requires Valid()
      modifies this
      ensures Valid() && store == MemClear(old(store), evictAfter, now)
      ensures forall k :: k in store <==>
                k in old(store) && now - old(store)[k][|old(store)[k]| - 1] <= evictAfter
      ensures forall k :: k in store ==> store[k] == old(store)[k]
    {
      var keys := store.Keys;
      while keys != {}
        invariant keys <= store.Keys <= old(store).Keys
        invariant forall k :: k in store ==> store[k] == old(store)[k]
        invariant forall k :: k in old(store) && k !in keys ==>
                    (k in store <==> !Stale(old(store)[k], evictAfter, now))
        decreases |keys|
      {
        var key :| key in keys;
        var queue := store[key];
        if |queue| == 0 || now - queue[|queue| - 1] > evictAfter {
          store := store - {key};
        }
        keys := keys - {key};
      }
    }
  }

  /** The Redis commands the limiter uses, each on the state left by the last. */
  class RedisLists {
    var lists: Lists

    constructor ()
      ensures lists == map[]
    {
      lists := map[];
    }

    method LLen(key: string, now: int) returns (n: nat)
      ensures n == |Live(lists, key, now)|
    {
      n := if key in lists && now < lists[key].expireAt then |lists[key].items| else 0;
    }

    /** LPUSH followed by EXPIRE. */
    method LPushExpire(key: string, value: int, now: int, ttl: nat)
      modifies this
      ensures lists == old(lists)[key := Entry([value] + old(Live(lists, key, now)), now + ttl)]
    {
      lists := lists[key := Entry([value] + Live(lists, key, now), now + ttl)];
    }

    method LTrim(key: string, now: int, stop: int)
      requires key in lists && now < lists[key].expireAt && stop >= -1
      modifies this
      ensures lists == old(lists)[key := old(lists)[key].(items := TrimTo(old(lists)[key].items, stop))]
      ensures stop >= 0 ==>
                && |lists[key].items| <= stop + 1 && lists[key].items <= old(lists)[key].items
                && (|lists[key].items| == stop + 1 || lists[key].items == old(lists)[key].items)
      ensures stop == -1 ==> lists == old(lists)
    {
      lists := lists[key := lists[key].(items := TrimTo(lists[key].items, stop))];
    }

    /** redisRateLimiter and userRedisRateLimiter, which differ only in how
        they build the key. */
    method RateLimit(key: string, maxRequestNum: nat, duration: int, now: int, ttl: nat) returns (d: Decision)
      requires ttl > 0
      modifies this
      ensures d == RedisDecide(old(lists), Limit(maxRequestNum, duration), key, now)
      ensures lists == RedisRequest(old(lists), Limit(maxRequestNum, duration), key, now, ttl)
      ensures var items := if key in old(lists) && now < old(lists)[key].expireAt then old(lists)[key].items else [];
              if |items| < maxRequestNum then
                d == Accepted && lists == old(lists)[key := Entry([now] + items, now + ttl)]
              else if items == [] then d == ServerError && lists == old(lists)
              else if now - items[|items| - 1] < duration then
                d == Rejected && lists == old(lists)[key := Entry(items, now + ttl)]
              else
                d == Accepted
                && lists == old(lists)[key := Entry(TrimTo([now] + items, maxRequestNum - 1), now + ttl)]
    {
      var listLength := LLen(key, now);
      if listLength < maxRequestNum {
        LPushExpire(key, now, now, ttl);
        return Accepted;
      }
      if listLength == 0 {
        return ServerError;
      }
      var oldTime := lists[key].items[listLength - 1];
      if now - oldTime < duration {
        lists := lists[key := Entry(lists[key].items, now + ttl)];
        return Rejected;
      }
      LPushExpire(key, now, now, ttl);
      LTrim(key, now, maxRequestNum - 1);
      return Accepted;
    }
  }
}
