/** The per-order lock of the top-up controller: a reference-counted mutex per
    trade number, kept in a map while anybody refers to it.

    The protocol is a state machine over any number of threads and orders.
    Its atomic steps are the sections run under createLock, the operations on
    one mutex, and the map read at the start of UnlockOrder.  `A` is the type
    of mutex addresses: the class below instantiates it with real objects. */
module OrderLock {
  /** One refCountedMutex: whether `mu` is locked, and the counter. */
  datatype Cell = Cell(locked: bool, refCount: int)

  /** Where an active thread is.  A thread that is not recorded is outside both
      calls.  In `Holding` the mutex is history: the caller of LockOrder keeps
      only the trade number, and UnlockOrder has to look the mutex up again. */
  datatype Pc<A> =
    | Waiting(order: string, rcm: A)    // counted itself in, blocked on mu.Lock()
    | Holding(order: string, rcm: A)    // LockOrder returned
    | Found(order: string, rcm: A)      // UnlockOrder loaded a mutex from the map
    | Releasing(order: string, rcm: A)  // mu unlocked, about to count itself out

  datatype State<A> = State(
    orderLocks: map<string, A>,
    heap: map<A, Cell>,
    pcs: map<nat, Pc<A>>)

  datatype Event<A> =
    | Enter(t: nat, order: string, rcm: A)  // `rcm` is the mutex it loads or creates
    | Acquire(t: nat)
    | Load(t: nat)
    | Unlock(t: nat)
    | Exit(t: nat)

  function Init<A(==)>(): State<A> { State(map[], map[], map[]) }

  /** When the step can be taken.  Blocking in mu.Lock() is a disabled step,
      and so is the run-time panic of unlocking an unlocked mutex. */
  predicate CanStep<A(==)>(s: State<A>, e: Event<A>) {
    match e
    case Enter(t, order, rcm) =>
      t !in s.pcs && if order in s.orderLocks then rcm == s.orderLocks[order] && rcm in s.heap else rcm !in s.heap
    case Acquire(t) => t in s.pcs && s.pcs[t].Waiting? && s.pcs[t].rcm in s.heap && !s.heap[s.pcs[t].rcm].locked
    case Load(t) => t in s.pcs && s.pcs[t].Holding?
    case Unlock(t) => t in s.pcs && s.pcs[t].Found? && s.pcs[t].rcm in s.heap && s.heap[s.pcs[t].rcm].locked
    case Exit(t) => t in s.pcs && s.pcs[t].Releasing? && s.pcs[t].rcm in s.heap
  }

  function Step<A(==)>(s: State<A>, e: Event<A>): State<A>
    requires CanStep(s, e)
  {
    match e
    case Enter(t, order, rcm) =>
      var count := if order in s.orderLocks then s.heap[rcm].refCount else 0;
      var locked := order in s.orderLocks && s.heap[rcm].locked;
      State(s.orderLocks[order := rcm], s.heap[rcm := Cell(locked, count + 1)], s.pcs[t := Waiting(order, rcm)])
    case Acquire(t) =>
      var pc := s.pcs[t];
      s.(heap := s.heap[pc.rcm := s.heap[pc.rcm].(locked := true)], pcs := s.pcs[t := Holding(pc.order, pc.rcm)])
    case Load(t) =>
      var pc := s.pcs[t];
      if pc.order in s.orderLocks then
        s.(pcs := s.pcs[t := Found(pc.order, s.orderLocks[pc.order])])
      else
        s.(pcs := s.pcs - {t})  // UnlockOrder returns without unlocking anything
    case Unlock(t) =>
      var pc := s.pcs[t];
      s.(heap := s.heap[pc.rcm := s.heap[pc.rcm].(locked := false)], pcs := s.pcs[t := Releasing(pc.order, pc.rcm)])
    case Exit(t) =>
      var pc := s.pcs[t];
      var count := s.heap[pc.rcm].refCount - 1;
      State(
        if count == 0 then s.orderLocks - {pc.order} else s.orderLocks,
        s.heap[pc.rcm := s.heap[pc.rcm].(refCount := count)],
        s.pcs - {t})
  }

  // ---------------------------------------------------------------------
  // Runs
  // ---------------------------------------------------------------------

  /** Every event of the run is enabled where it is taken. */
  predicate Executable<A(==)>(s: State<A>, run: seq<Event<A>>)
    decreases |run|
  {
    run == [] || (CanStep(s, run[0]) && Executable(Step(s, run[0]), run[1..]))
  }

  function Run<A(==)>(s: State<A>, run: seq<Event<A>>): State<A>
    requires Executable(s, run)
    decreases |run|
  {
    if run == [] then s else Run(Step(s, run[0]), run[1..])
  }

  // ---------------------------------------------------------------------
  // Safety
  // ---------------------------------------------------------------------

  /** The thread has locked the order's mutex and not yet unlocked it. */
  ghost predicate Owns<A>(s: State<A>, t: nat, order: string) {
    t in s.pcs && s.pcs[t].order == order && (s.pcs[t].Holding? || s.pcs[t].Found?)
  }

  /** The threads that have counted themselves in for an order and not out. */
  ghost function Users<A>(s: State<A>, order: string): set<nat> {
    set t | t in s.pcs && s.pcs[t].order == order
  }

  ghost predicate MutualExclusion<A>(s: State<A>) {
    forall order, t, u :: Owns(s, t, order) && Owns(s, u, order) ==> t == u
  }

  /** A map entry exists exactly while somebody refers to the order, and its
      counter is the number of those threads. */
  ghost predicate EntryCountsUsers<A>(s: State<A>) {
    && (forall order :: order in s.orderLocks <==> Users(s, order) != {})
    && (forall order :: order in s.orderLocks ==>
          s.orderLocks[order] in s.heap && s.heap[s.orderLocks[order]].refCount == |Users(s, order)|)
  }

  /** Every active thread's mutex is the one the map holds for its order, so
      UnlockOrder's lookup finds the very mutex LockOrder locked. */
  ghost predicate LookupFindsOwn<A>(s: State<A>) {
    forall t :: t in s.pcs ==> s.pcs[t].order in s.orderLocks && s.orderLocks[s.pcs[t].order] == s.pcs[t].rcm
  }

  /** Orders never share a mutex, and a mutex in the map is locked exactly
      while some thread owns its order. */
  ghost predicate LockedMeansOwned<A>(s: State<A>) {
    && (forall o, p :: o in s.orderLocks && p in s.orderLocks && s.orderLocks[o] == s.orderLocks[p] ==> o == p)
    && (forall o :: o in s.orderLocks && s.orderLocks[o] in s.heap ==>
          (s.heap[s.orderLocks[o]].locked <==> exists t :: Owns(s, t, o)))
  }

  ghost predicate Safe<A>(s: State<A>) {
    && MutualExclusion(s)
    && EntryCountsUsers(s)
    && LookupFindsOwn(s)
    && LockedMeansOwned(s)
  }

  /** How counting in changes who uses and who owns each order. */
  lemma {:induction false} EnterUsers<A>(s: State<A>, e: Event<A>)
    requires Safe(s) && e.Enter? && CanStep(s, e)
    ensures Users(Step(s, e), e.order) == Users(s, e.order) + {e.t} && e.t !in Users(s, e.order)
    ensures forall o :: o != e.order ==> Users(Step(s, e), o) == Users(s, o)
    ensures forall t, o :: Owns(Step(s, e), t, o) <==> Owns(s, t, o)
    ensures |Users(Step(s, e), e.order)| == |Users(s, e.order)| + 1
  {
    assert Users(Step(s, e), e.order) == Users(s, e.order) + {e.t};
  }

  lemma {:induction false} EnterNewCounts<A>(s: State<A>, e: Event<A>)
    requires Safe(s) && e.Enter? && CanStep(s, e) && e.order !in s.orderLocks
    ensures EntryCountsUsers(Step(s, e)) && LookupFindsOwn(Step(s, e))
  {
    EnterUsers(s, e);
    assert Users(s, e.order) == {};
    assert Users(Step(s, e), e.order) == {e.t};
  }

  lemma {:induction false} EnterNewLocks<A>(s: State<A>, e: Event<A>)
    requires Safe(s) && e.Enter? && CanStep(s, e) && e.order !in s.orderLocks
    ensures MutualExclusion(Step(s, e)) && LockedMeansOwned(Step(s, e))
  {
    EnterUsers(s, e);
    assert forall t :: !Owns(s, t, e.order);
  }

  lemma {:induction false} EnterSharedSafe<A>(s: State<A>, e: Event<A>)
    requires Safe(s) && e.Enter? && CanStep(s, e) && e.order in s.orderLocks
    ensures Safe(Step(s, e))
  {
    EnterUsers(s, e);
    assert Step(s, e).orderLocks == s.orderLocks;
  }

  /** A step that keeps the map, the counters and who uses each order. */
  lemma {:induction false} KeepsEntries<A>(s: State<A>, s': State<A>)
    requires EntryCountsUsers(s) && s'.orderLocks == s.orderLocks
    requires forall o :: Users(s', o) == Users(s, o)
    requires forall a :: a in s.heap ==> a in s'.heap && s'.heap[a].refCount == s.heap[a].refCount
    ensures EntryCountsUsers(s')
  {
    hide Users;
  }

  /** A step that keeps the map and every thread's order and mutex. */
  lemma {:induction false} KeepsLookup<A>(s: State<A>, s': State<A>)
    requires LookupFindsOwn(s) && s'.orderLocks == s.orderLocks
    requires forall t :: t in s'.pcs ==>
               t in s.pcs && s'.pcs[t].order == s.pcs[t].order && s'.pcs[t].rcm == s.pcs[t].rcm
    ensures LookupFindsOwn(s')
  {
  }

  /** One thread's position changed, its order and mutex kept. */
  lemma {:induction false} MovedThread<A>(s: State<A>, s': State<A>, t: nat, pc: Pc<A>)
    requires t in s.pcs && pc.order == s.pcs[t].order && pc.rcm == s.pcs[t].rcm && s'.pcs == s.pcs[t := pc]
    ensures forall o :: Users(s', o) == Users(s, o)
    ensures forall u, o :: Owns(s', u, o) <==>
              if u == t then o == pc.order && (pc.Holding? || pc.Found?) else Owns(s, u, o)
  {
    forall o ensures Users(s', o) == Users(s, o) {}
  }

  lemma {:induction false} AcquireLocks<A>(s: State<A>, e: Event<A>)
    requires Safe(s) && e.Acquire? && CanStep(s, e)
    ensures MutualExclusion(Step(s, e)) && LockedMeansOwned(Step(s, e))
  {
    var s' := Step(s, e);
    var pc := s.pcs[e.t];
    MovedThread(s, s', e.t, Holding(pc.order, pc.rcm));
    hide Owns, Users, EntryCountsUsers;
    assert s.orderLocks[pc.order] == pc.rcm;
    assert forall t :: !Owns(s, t, pc.order);
    assert Owns(s', e.t, pc.order);
  }

  lemma {:induction false} AcquireSafe<A>(s: State<A>, e: Event<A>)
    requires Safe(s) && e.Acquire? && CanStep(s, e)
    ensures Safe(Step(s, e))
  {
    var pc := s.pcs[e.t];
    AcquireLocks(s, e);
    MovedThread(s, Step(s, e), e.t, Holding(pc.order, pc.rcm));
    hide Owns, Users, EntryCountsUsers, LookupFindsOwn, MutualExclusion, LockedMeansOwned;
    KeepsEntries(s, Step(s, e));
    KeepsLookup(s, Step(s, e));
  }

  lemma {:induction false} OwnLookup<A>(s: State<A>, t: nat)
    requires Safe(s) && t in s.pcs
    ensures s.pcs[t].order in s.orderLocks && s.orderLocks[s.pcs[t].order] == s.pcs[t].rcm
  {
  }

  lemma {:induction false} LoadSafe<A>(s: State<A>, e: Event<A>)
    requires Safe(s) && e.Load? && CanStep(s, e)
    ensures Safe(Step(s, e))
    ensures Step(s, e).pcs[e.t] == Found(s.pcs[e.t].order, s.pcs[e.t].rcm)
  {
    var s' := Step(s, e);
    var pc := s.pcs[e.t];
    OwnLookup(s, e.t);
    MovedThread(s, s', e.t, Found(pc.order, pc.rcm));
    assert Owns(s, e.t, pc.order);
    assert forall o :: Owns(s, e.t, o) ==> o == pc.order;
    assert forall u, o :: Owns(s', u, o) <==> Owns(s, u, o);
    hide Owns, Users, EntryCountsUsers, LookupFindsOwn;
    KeepsEntries(s, s');
    KeepsLookup(s, s');
  }

  lemma {:induction false} UnlockLocks<A>(s: State<A>, e: Event<A>)
    requires Safe(s) && e.Unlock? && CanStep(s, e)
    ensures MutualExclusion(Step(s, e)) && LockedMeansOwned(Step(s, e))
  {
    var s' := Step(s, e);
    var pc := s.pcs[e.t];
    assert Owns(s, e.t, pc.order);
    MovedThread(s, s', e.t, Releasing(pc.order, pc.rcm));
    hide Owns, Users, EntryCountsUsers;
    assert s.orderLocks[pc.order] == pc.rcm;
    assert forall u, o :: Owns(s', u, o) ==> Owns(s, u, o);
    assert forall u :: !Owns(s', u, pc.order);
  }

  lemma {:induction false} UnlockSafe<A>(s: State<A>, e: Event<A>)
    requires Safe(s) && e.Unlock? && CanStep(s, e)
    ensures Safe(Step(s, e))
  {
    var pc := s.pcs[e.t];
    UnlockLocks(s, e);
    MovedThread(s, Step(s, e), e.t, Releasing(pc.order, pc.rcm));
    hide Owns, Users, EntryCountsUsers, LookupFindsOwn, MutualExclusion, LockedMeansOwned;
    KeepsEntries(s, Step(s, e));
    KeepsLookup(s, Step(s, e));
  }

  /** How counting out changes who uses and who owns each order. */
  lemma {:induction false} ExitUsers<A>(s: State<A>, e: Event<A>)
    requires Safe(s) && e.Exit? && CanStep(s, e)
    ensures var order := s.pcs[e.t].order;
            Users(Step(s, e), order) == Users(s, order) - {e.t} && e.t in Users(s, order)
    ensures forall o :: o != s.pcs[e.t].order ==> Users(Step(s, e), o) == Users(s, o)
    ensures forall t, o :: Owns(Step(s, e), t, o) <==> Owns(s, t, o)
    ensures Step(s, e).heap[s.pcs[e.t].rcm].refCount == |Users(Step(s, e), s.pcs[e.t].order)|
  {
    var order := s.pcs[e.t].order;
    assert e.t in Users(s, order);
    assert Users(Step(s, e), order) == Users(s, order) - {e.t};
  }

  lemma {:induction false} ExitLastSafe<A>(s: State<A>, e: Event<A>)
    requires Safe(s) && e.Exit? && CanStep(s, e) && s.heap[s.pcs[e.t].rcm].refCount == 1
    ensures Safe(Step(s, e))
  {
    var s' := Step(s, e);
    var order := s.pcs[e.t].order;
    ExitUsers(s, e);
    assert Users(s', order) == {};
    assert forall t :: t in s'.pcs && s'.pcs[t].order == order ==> t in Users(s', order);
  }

  lemma {:induction false} ExitSharedSafe<A>(s: State<A>, e: Event<A>)
    requires Safe(s) && e.Exit? && CanStep(s, e) && s.heap[s.pcs[e.t].rcm].refCount != 1
    ensures Safe(Step(s, e))
  {
    var s' := Step(s, e);
    ExitUsers(s, e);
    assert s'.orderLocks == s.orderLocks;
    assert Users(s', s.pcs[e.t].order) != {};
  }

  lemma {:induction false} StepSafe<A>(s: State<A>, e: Event<A>)
    requires Safe(s) && CanStep(s, e)
    ensures Safe(Step(s, e))
  {
    match e
    case Enter(_, order, _) =>
      if order in s.orderLocks {
        EnterSharedSafe(s, e);
      } else {
        EnterNewCounts(s, e);
        EnterNewLocks(s, e);
      }
    case Acquire(_) => AcquireSafe(s, e);
    case Load(_) => LoadSafe(s, e);
    case Unlock(_) => UnlockSafe(s, e);
    case Exit(t) => if s.heap[s.pcs[t].rcm].refCount == 1 { ExitLastSafe(s, e); } else { ExitSharedSafe(s, e); }
  }

  /** Safety over whole runs: whatever the interleaving, every reachable state
      has mutual exclusion per order, exact reference counts, and lookups that
      find the right mutex. */
  lemma {:induction false} RunSafe<A>(s: State<A>, run: seq<Event<A>>)
    requires Safe(s) && Executable(s, run)
    ensures Safe(Run(s, run))
    decreases |run|
  {
    if run != [] {
      StepSafe(s, run[0]);
      RunSafe(Step(s, run[0]), run[1..]);
    }
  }

  /** No reachable state leaves a lock behind: when no thread is inside, the
      map is empty. */
  lemma {:induction false} QuiescentMapEmpty<A>(run: seq<Event<A>>)
    requires Executable(Init<A>(), run)
    requires Run(Init<A>(), run).pcs == map[]
    ensures Run(Init<A>(), run).orderLocks == map[]
  {
    RunSafe(Init<A>(), run);
    var s := Run(Init<A>(), run);
    assert forall order :: Users(s, order) == {};
  }

  /** UnlockOrder's lookup never misses and never finds somebody else's mutex,
      and the mutex it then unlocks is locked, so the unlock does not panic. */
  lemma {:induction false} UnlockOrderNeverMisses<A>(run: seq<Event<A>>, t: nat)
    requires Executable(Init<A>(), run)
    ensures var s := Run(Init<A>(), run);
            t in s.pcs && s.pcs[t].Holding? ==>
              && CanStep(s, Load(t))
              && Step(s, Load(t)).pcs == s.pcs[t := Found(s.pcs[t].order, s.pcs[t].rcm)]
    ensures var s := Run(Init<A>(), run);
            t in s.pcs && s.pcs[t].Found? ==> CanStep(s, Unlock(t))
  {
    RunSafe(Init<A>(), run);
    var s := Run(Init<A>(), run);
    if t in s.pcs && s.pcs[t].Found? { assert Owns(s, t, s.pcs[t].order); }
  }

  // ---------------------------------------------------------------------
  // Progress
  // ---------------------------------------------------------------------

  /** In a safe state a thread inside is held up in one case only: it waits for
      an order somebody owns. */
  lemma {:induction false} BlockedExact<A>(s: State<A>, t: nat)
    requires Safe(s) && t in s.pcs
    ensures s.pcs[t].Waiting? ==> (CanStep(s, Acquire(t)) <==> forall u :: !Owns(s, u, s.pcs[t].order))
    ensures s.pcs[t].Holding? ==> CanStep(s, Load(t))
    ensures s.pcs[t].Found? ==> CanStep(s, Unlock(t))
    ensures s.pcs[t].Releasing? ==> CanStep(s, Exit(t))
  {
    if s.pcs[t].Found? { assert Owns(s, t, s.pcs[t].order); }
  }

  /** A step somebody inside can take. */
  lemma {:induction false} EnabledStep<A>(s: State<A>) returns (e: Event<A>)
    requires Safe(s) && s.pcs != map[]
    ensures CanStep(s, e) && !e.Enter? && e.t in s.pcs
  {
    var t :| t in s.pcs;
    BlockedExact(s, t);
    match s.pcs[t]
    case Waiting(order, _) =>
      if u :| Owns(s, u, order) {
        BlockedExact(s, u);
        e := if s.pcs[u].Holding? then Load(u) else Unlock(u);
      } else {
        e := Acquire(t);
      }
    case Holding(_, _) => e := Load(t);
    case Found(_, _) => e := Unlock(t);
    case Releasing(_, _) => e := Exit(t);
  }

  /** Deadlock freedom: while any thread is inside, one of them can move. */
  lemma {:induction false} SomebodyCanMove<A>(run: seq<Event<A>>)
    requires Executable(Init<A>(), run)
    ensures var s := Run(Init<A>(), run);
            s.pcs != map[] ==> exists e: Event<A> :: CanStep(s, e) && !e.Enter? && e.t in s.pcs
  {
    RunSafe(Init<A>(), run);
    if Run(Init<A>(), run).pcs != map[] {
      var _ := EnabledStep(Run(Init<A>(), run));
    }
  }

  /** The steps a thread has before it: none when it is outside. */
  function StepsLeft<A>(pcs: map<nat, Pc<A>>, t: nat): nat {
    if t !in pcs then 0
    else match pcs[t]
      case Waiting(_, _) => 4
      case Holding(_, _) => 3
      case Found(_, _) => 2
      case Releasing(_, _) => 1
  }

  /** Every step takes its own thread one further, entering apart, and leaves
      every other thread where it is. */
  lemma {:induction false} StepMoves<A>(s: State<A>, e: Event<A>)
    requires Safe(s) && CanStep(s, e)
    ensures forall u :: u != e.t ==> (u in Step(s, e).pcs <==> u in s.pcs)
    ensures forall u :: u != e.t && u in s.pcs ==> Step(s, e).pcs[u] == s.pcs[u]
    ensures e.Enter? ==> StepsLeft(s.pcs, e.t) == 0 && StepsLeft(Step(s, e).pcs, e.t) == 4
    ensures !e.Enter? ==> StepsLeft(s.pcs, e.t) == StepsLeft(Step(s, e).pcs, e.t) + 1
  {
    if e.Load? { OwnLookup(s, e.t); }
  }

  function Entries<A>(run: seq<Event<A>>, t: nat): nat
    decreases |run|
  {
    if run == [] then 0 else (if run[0].Enter? && run[0].t == t then 1 else 0) + Entries(run[1..], t)
  }

  /** The steps a thread takes in a run other than entering. */
  function OwnSteps<A>(run: seq<Event<A>>, t: nat): nat
    decreases |run|
  {
    if run == [] then 0 else (if !run[0].Enter? && run[0].t == t then 1 else 0) + OwnSteps(run[1..], t)
  }

  /** Over every run, each entry costs a thread exactly four steps of its own:
      what it has taken and what it has left always add up. */
  lemma {:induction false} FourStepsPerEntry<A>(s: State<A>, run: seq<Event<A>>, t: nat)
    requires Safe(s) && Executable(s, run)
    ensures OwnSteps(run, t) + StepsLeft(Run(s, run).pcs, t) == StepsLeft(s.pcs, t) + 4 * Entries(run, t)
    decreases |run|
  {
    hide StepsLeft, Step, Safe, CanStep;
    if run != [] {
      StepSafe(s, run[0]);
      StepMoves(s, run[0]);
      assert run[0].t != t ==> StepsLeft(Step(s, run[0]).pcs, t) == StepsLeft(s.pcs, t) by {
        SamePlace(s.pcs, Step(s, run[0]).pcs, t, run[0].t);
      }
      FourStepsPerEntry(Step(s, run[0]), run[1..], t);
    }
  }

  lemma {:induction false} SamePlace<A>(p: map<nat, Pc<A>>, q: map<nat, Pc<A>>, t: nat, other: nat)
    requires forall u :: u != other ==> (u in q <==> u in p)
    requires forall u :: u != other && u in p ==> q[u] == p[u]
    ensures t != other ==> StepsLeft(q, t) == StepsLeft(p, t)
  {
  }

  /** The steps all threads have before them. */
  ghost function AllStepsLeft<A>(pcs: map<nat, Pc<A>>, ts: set<nat>): nat
  {
    if ts == {} then 0
    else
      var t :| t in ts;
      StepsLeft(pcs, t) + AllStepsLeft(pcs, ts - {t})
  }

  lemma {:induction false} TakeThread<A>(pcs: map<nat, Pc<A>>, ts: set<nat>, t: nat)
    requires t in ts
    ensures AllStepsLeft(pcs, ts) == StepsLeft(pcs, t) + AllStepsLeft(pcs, ts - {t})
    decreases |ts|
  {
    hide StepsLeft;
    var first :| first in ts && AllStepsLeft(pcs, ts) == StepsLeft(pcs, first) + AllStepsLeft(pcs, ts - {first});
    if first != t {
      TakeThread(pcs, ts - {first}, t);
      TakeThread(pcs, ts - {t}, first);
      assert ts - {first} - {t} == ts - {t} - {first};
    }
  }

  lemma {:induction false} SameSteps<A>(p: map<nat, Pc<A>>, q: map<nat, Pc<A>>, ts: set<nat>)
    requires forall t :: t in ts ==> StepsLeft(p, t) == StepsLeft(q, t)
    ensures AllStepsLeft(p, ts) == AllStepsLeft(q, ts)
    decreases |ts|
  {
    hide StepsLeft;
    if ts != {} {
      var t :| t in ts;
      TakeThread(p, ts, t);
      TakeThread(q, ts, t);
      SameSteps(p, q, ts - {t});
    }
  }

  lemma {:induction false} StepBringsForward<A>(s: State<A>, e: Event<A>, ts: set<nat>)
    requires Safe(s) && CanStep(s, e) && !e.Enter? && e.t in ts
    ensures AllStepsLeft(s.pcs, ts) == AllStepsLeft(Step(s, e).pcs, ts) + 1
  {
    StepMoves(s, e);
    hide Step, StepsLeft, Safe, CanStep;
    var after := Step(s, e).pcs;
    forall u | u in ts - {e.t} ensures StepsLeft(s.pcs, u) == StepsLeft(after, u) { SamePlace(s.pcs, after, u, e.t); }
    SameSteps(s.pcs, after, ts - {e.t});
    TakeThread(s.pcs, ts, e.t);
    TakeThread(after, ts, e.t);
  }

  ghost predicate NoEntries<A>(run: seq<Event<A>>) { forall e :: e in run ==> !e.Enter? }

  /** A run that takes everybody inside out. */
  lemma {:induction false} LeavingRun<A>(s: State<A>, ts: set<nat>) returns (run: seq<Event<A>>)
    requires Safe(s) && s.pcs.Keys <= ts
    ensures Executable(s, run) && NoEntries(run) && |run| == AllStepsLeft(s.pcs, ts)
    ensures Run(s, run).pcs == map[]
    decreases AllStepsLeft(s.pcs, ts)
  {
    if s.pcs == map[] {
      NoneLeft(s.pcs, ts);
      run := [];
    } else {
      var e := EnabledStep(s);
      StepSafe(s, e);
      StepMoves(s, e);
      StepBringsForward(s, e, ts);
      var rest := LeavingRun(Step(s, e), ts);
      hide Step, CanStep, Safe, AllStepsLeft;
      run := [e] + rest;
      assert run[1..] == rest;
    }
  }

  /** Nobody is ever stuck: from every reachable state the threads inside can all
      leave, without anybody new entering, in exactly the steps they have left,
      and the map is then empty. */
  lemma {:induction false} EverybodyCanLeave<A>(run: seq<Event<A>>)
    requires Executable(Init<A>(), run)
    ensures var s := Run(Init<A>(), run);
            exists rest :: Executable(s, rest) && NoEntries(rest) && |rest| == AllStepsLeft(s.pcs, s.pcs.Keys)
                && Run(s, rest).pcs == map[] && Run(s, rest).orderLocks == map[]
  {
    RunSafe(Init<A>(), run);
    var s := Run(Init<A>(), run);
    var rest := LeavingRun(s, s.pcs.Keys);
    RunSafe(s, rest);
    assert forall order :: Users(Run(s, rest), order) == {};
  }

  lemma {:induction false} NoneLeft<A>(pcs: map<nat, Pc<A>>, ts: set<nat>)
    requires pcs == map[]
    ensures AllStepsLeft(pcs, ts) == 0
    decreases |ts|
  {
    if ts != {} {
      var t :| t in ts;
      TakeThread(pcs, ts, t);
      NoneLeft(pcs, ts - {t});
    }
  }

  // ---------------------------------------------------------------------
  // The code itself, one method per atomic section
  // ---------------------------------------------------------------------

  class RefCountedMutex {
    var locked: bool
    var refCount: int

    constructor ()
      ensures !locked && refCount == 0
    {
      locked, refCount := false, 0;
    }
  }

  /** The package variable orderLocks, with the objects it was ever given and
      the positions of the threads as ghost history. */
  class OrderLocks {
    var orderLocks: map<string, RefCountedMutex>
    ghost var created: set<RefCountedMutex>
    ghost var pcs: map<nat, Pc<RefCountedMutex>>

    ghost predicate Valid()
      reads this, created
    {
      (forall order :: order in orderLocks ==> orderLocks[order] in created) && Safe(View())
    }

    ghost function View(): State<RefCountedMutex>
      reads this, created
    {
      State(orderLocks, map m | m in created :: Cell(m.locked, m.refCount), pcs)
    }

    constructor ()
      ensures Valid() && View() == Init()
    {
      orderLocks, created, pcs := map[], {}, map[];
    }

    /** LockOrder up to createLock.Unlock(). */
    method EnterSection(ghost t: nat, tradeNo: string) returns (rcm: RefCountedMutex)
      requires Valid() && t !in pcs
      modifies this, created
      ensures Valid() && fresh(created - old(created))
      ensures CanStep(old(View()), Enter(t, tradeNo, rcm)) && View() == Step(old(View()), Enter(t, tradeNo, rcm))
      ensures orderLocks == old(orderLocks)[tradeNo := rcm] && pcs == old(pcs)[t := Waiting(tradeNo, rcm)]
      ensures created == old(created) + {rcm}
      ensures tradeNo in old(orderLocks) ==>
                rcm == old(orderLocks)[tradeNo] && rcm.refCount == old(rcm.refCount) + 1
                && rcm.locked == old(rcm.locked)
      ensures tradeNo !in old(orderLocks) ==> fresh(rcm) && rcm.refCount == 1 && !rcm.locked
      ensures forall m :: m in old(created) && m != rcm ==>
                m.locked == old(m.locked) && m.refCount == old(m.refCount)
    {
      hide Safe;
      ghost var before := View();
      if tradeNo in orderLocks {
        rcm := orderLocks[tradeNo];
      } else {
        rcm := new RefCountedMutex();
        orderLocks := orderLocks[tradeNo := rcm];
        created := created + {rcm};
      }
      rcm.refCount := rcm.refCount + 1;
      pcs := pcs[t := Waiting(tradeNo, rcm)];
      assert View() == Step(before, Enter(t, tradeNo, rcm))
          by { assert View().heap == Step(before, Enter(t, tradeNo, rcm)).heap; }
      StepSafe(before, Enter(t, tradeNo, rcm));
    }

    /** LockOrder's final rcm.mu.Lock(), at the moment it gets the mutex. */
    method LockMutex(ghost t: nat, rcm: RefCountedMutex)
      requires Valid() && t in pcs && pcs[t].Waiting? && pcs[t].rcm == rcm && !rcm.locked
      modifies this`pcs, rcm`locked
      ensures Valid() && created == old(created)
      ensures CanStep(old(View()), Acquire(t)) && View() == Step(old(View()), Acquire(t))
      ensures rcm.locked && pcs == old(pcs)[t := Holding(old(pcs[t].order), rcm)]
      ensures Owns(View(), t, old(pcs[t].order))
    {
      ghost var before := View();
      rcm.locked := true;
      pcs := pcs[t := Holding(pcs[t].order, rcm)];
      assert View() == Step(before, Acquire(t)) by { assert View().heap == Step(before, Acquire(t)).heap; }
      StepSafe(before, Acquire(t));
    }

    /** UnlockOrder's lookup.  By the invariant it never misses. */
    method Lookup(ghost t: nat, tradeNo: string) returns (rcm: RefCountedMutex)
      requires Valid() && t in pcs && pcs[t].Holding? && pcs[t].order == tradeNo
      modifies this`pcs
      ensures Valid() && created == old(created)
      ensures CanStep(old(View()), Load(t)) && View() == Step(old(View()), Load(t))
      ensures rcm == old(pcs[t].rcm) && rcm in created && rcm.locked
      ensures pcs == old(pcs)[t := Found(tradeNo, rcm)]
    {
      ghost var before := View();
      assert Owns(before, t, tradeNo);
      rcm := orderLocks[tradeNo];
      pcs := pcs[t := Found(tradeNo, rcm)];
      assert View() == Step(before, Load(t)) by { assert View().heap == Step(before, Load(t)).heap; }
      StepSafe(before, Load(t));
    }

    /** UnlockOrder's rcm.mu.Unlock(); the mutex is locked, so it cannot panic. */
    method UnlockMutex(ghost t: nat, rcm: RefCountedMutex)
      requires Valid() && t in pcs && pcs[t].Found? && pcs[t].rcm == rcm
      modifies this`pcs, rcm`locked
      ensures old(rcm.locked)
      ensures Valid() && created == old(created)
      ensures CanStep(old(View()), Unlock(t)) && View() == Step(old(View()), Unlock(t))
      ensures !rcm.locked && pcs == old(pcs)[t := Releasing(old(pcs[t].order), rcm)]
      ensures forall u :: u in pcs && pcs[u].Waiting? && pcs[u].order == old(pcs[t].order) ==>
                pcs[u].rcm == rcm && CanStep(View(), Acquire(u))
    {
      ghost var before := View();
      assert Owns(before, t, pcs[t].order);
      assert rcm.locked;
      rcm.locked := false;
      pcs := pcs[t := Releasing(pcs[t].order, rcm)];
      assert View() == Step(before, Unlock(t)) by { assert View().heap == Step(before, Unlock(t)).heap; }
      StepSafe(before, Unlock(t));
    }

    /** UnlockOrder's closing section under createLock. */
    method ExitSection(ghost t: nat, tradeNo: string, rcm: RefCountedMutex)
      requires Valid() && t in pcs && pcs[t] == Releasing(tradeNo, rcm)
      modifies this, rcm`refCount
      ensures Valid() && created == old(created)
      ensures CanStep(old(View()), Exit(t)) && View() == Step(old(View()), Exit(t))
      ensures rcm.refCount == old(rcm.refCount) - 1 && pcs == old(pcs) - {t}
      ensures orderLocks == if old(rcm.refCount) == 1 then old(orderLocks) - {tradeNo} else old(orderLocks)
    {
      ghost var before := View();
      rcm.refCount := rcm.refCount - 1;
      if rcm.refCount == 0 {
        orderLocks := orderLocks - {tradeNo};
      }
      pcs := pcs - {t};
      assert View() == Step(before, Exit(t)) by { assert View().heap == Step(before, Exit(t)).heap; }
      StepSafe(before, Exit(t));
    }
  }
}
