/** The counters of open body stores, under every interleaving of their atomic
    steps: adding the count and the size when a store is made, and taking them
    off, clamped at zero for files, when it is closed. */
module CacheCounters {

  /** How far a store's life has come, atomic step by atomic step. */
  datatype Phase =
    | Fresh             // made, nothing counted
    | Counted           // its count added
    | Open              // its size added: handed to the caller
    | Closing           // the close that won the flag
    | ClampFiles        // its count taken off, the counter read negative
    | Uncounted         // its count taken off
    | ClampBytes        // its size taken off, the counter read negative
    | Gone

  datatype Item = Item(size: nat, disk: bool, phase: Phase)

  datatype World = World(items: seq<Item>, diskFiles: int, diskBytes: int, memoryBuffers: int, memoryBytes: int)

  const EMPTY := World([], 0, 0, 0, 0)

  datatype Event =
    | Create(size: nat, disk: bool)
    | Check(announced: nat, written: nat, limit: int)
      // IsDiskCacheAvailable on the announced size, the sum within 64 bits; when it
      // answers yes, a disk store of what is then really written
    | AddCount(i: nat)
    | AddSize(i: nat)
    | CloseCall(i: nat)
    | TakeCount(i: nat)
    | StoreZeroFiles(i: nat)
    | TakeSize(i: nat)
    | StoreZeroBytes(i: nat)

  predicate At(w: World, i: nat, phase: Phase) { i < |w.items| && w.items[i].phase == phase }

  function Moved(w: World, i: nat, phase: Phase): World
    requires i < |w.items|
  {
    w.(items := w.items[i := w.items[i].(phase := phase)])
  }

  /** One atomic step; a step that is not due changes nothing, and neither does
      closing a store that is already closed. */
  function Step(w: World, ev: Event): World {
    match ev
    case Create(size, disk) => w.(items := w.items + [Item(size, disk, Fresh)])
    case Check(announced, written, limit) =>
      if w.diskBytes + announced <= limit then w.(items := w.items + [Item(written, true, Fresh)]) else w
    case AddCount(i) =>
      if !At(w, i, Fresh) then w
      else if w.items[i].disk then Moved(w, i, Counted).(diskFiles := w.diskFiles + 1)
      else Moved(w, i, Counted).(memoryBuffers := w.memoryBuffers + 1)
    case AddSize(i) =>
      if !At(w, i, Counted) then w
      else if w.items[i].disk then Moved(w, i, Open).(diskBytes := w.diskBytes + w.items[i].size)
      else Moved(w, i, Open).(memoryBytes := w.memoryBytes + w.items[i].size)
    case CloseCall(i) => if At(w, i, Open) then Moved(w, i, Closing) else w
    case TakeCount(i) =>
      if !At(w, i, Closing) then w
      else if w.items[i].disk then
        Moved(w, i, if w.diskFiles - 1 < 0 then ClampFiles else Uncounted).(diskFiles := w.diskFiles - 1)
      else Moved(w, i, Uncounted).(memoryBuffers := w.memoryBuffers - 1)
    case StoreZeroFiles(i) => if At(w, i, ClampFiles) then Moved(w, i, Uncounted).(diskFiles := 0) else w
    case TakeSize(i) =>
      if !At(w, i, Uncounted) then w
      else if w.items[i].disk then
        var left := w.diskBytes - w.items[i].size;
        Moved(w, i, if left < 0 then ClampBytes else Gone).(diskBytes := left)
      else Moved(w, i, Gone).(memoryBytes := w.memoryBytes - w.items[i].size)
    case StoreZeroBytes(i) => if At(w, i, ClampBytes) then Moved(w, i, Gone).(diskBytes := 0) else w
  }

  function Run(w: World, evs: seq<Event>): World
    decreases |evs|
  {
    if evs == [] then w else Run(Step(w, evs[0]), evs[1..])
  }

  // ---------------------------------------------------------------------
  // What the counters should read
  // ---------------------------------------------------------------------

  datatype Gauge = DiskFiles | DiskBytes | MemoryBuffers | MemoryBytes

  function Reading(w: World, g: Gauge): int {
    match g
    case DiskFiles => w.diskFiles
    case DiskBytes => w.diskBytes
    case MemoryBuffers => w.memoryBuffers
    case MemoryBytes => w.memoryBytes
  }

  predicate Measures(g: Gauge, disk: bool) {
    if disk then g.DiskFiles? || g.DiskBytes? else g.MemoryBuffers? || g.MemoryBytes?
  }

  predicate CountsStores(g: Gauge) { g.DiskFiles? || g.MemoryBuffers? }

  /** What a store contributes to a counter at its phase. */
  function Share(x: Item, g: Gauge): nat {
    if !Measures(g, x.disk) then 0
    else if CountsStores(g) then (if x.phase in {Counted, Open, Closing} then 1 else 0)
    else (if x.phase in {Open, Closing, Uncounted, ClampFiles} then x.size else 0)
  }

  function Total(items: seq<Item>, g: Gauge): nat {
    if items == [] then 0 else Total(items[..|items| - 1], g) + Share(items[|items| - 1], g)
  }

  /** The number, or the total size, of the open stores of a kind. */
  function OpenTotal(items: seq<Item>, g: Gauge): nat {
    if items == [] then 0
    else
      var x := items[|items| - 1];
      OpenTotal(items[..|items| - 1], g)
      + if x.phase == Open && Measures(g, x.disk) then (if CountsStores(g) then 1 else x.size) else 0
  }

  ghost predicate NeverNegative(w: World) {
    forall i :: 0 <= i < |w.items| ==> w.items[i].phase != ClampFiles && w.items[i].phase != ClampBytes
  }

  ghost predicate Accurate(w: World) { NeverNegative(w) && forall g: Gauge :: Reading(w, g) == Total(w.items, g) }

  lemma {:induction false} TotalUpdate(items: seq<Item>, i: nat, x: Item, g: Gauge)
    requires i < |items|
    ensures Total(items[i := x], g) == Total(items, g) - Share(items[i], g) + Share(x, g)
    ensures Share(items[i], g) <= Total(items, g)
  {
    hide Share;
    var n := |items| - 1;
    if i < n {
      assert items[i := x][..n] == items[..n][i := x];
      TotalUpdate(items[..n], i, x, g);
    } else {
      assert items[i := x][..n] == items[..n];
    }
  }

  /** Only store i is touched, and each counter moves by what its share does. */
  lemma {:induction false} StepMoves(w: World, ev: Event, g: Gauge)
    requires !ev.Create? && !ev.Check? && ev.i < |w.items| && NeverNegative(w)
    ensures var t := Step(w, ev);
            && |t.items| == |w.items| && t.items == w.items[ev.i := t.items[ev.i]]
            && Reading(t, g) - Reading(w, g) == Share(t.items[ev.i], g) - Share(w.items[ev.i], g)
  {
    var x := w.items[ev.i];
    assert x.phase != ClampFiles && x.phase != ClampBytes;
    assert w.items == w.items[ev.i := x];
  }

  lemma {:induction false} StepTotals(w: World, ev: Event, g: Gauge)
    requires Accurate(w)
    ensures Reading(Step(w, ev), g) == Total(Step(w, ev).items, g)
  {
    assert Reading(w, g) == Total(w.items, g);
    if ev.Create? {
      var x := Item(ev.size, ev.disk, Fresh);
      assert (w.items + [x])[..|w.items|] == w.items;
    } else if ev.Check? {
      var x := Item(ev.written, true, Fresh);
      assert (w.items + [x])[..|w.items|] == w.items;
    } else if ev.i < |w.items| {
      StepMoves(w, ev, g);
      TotalUpdate(w.items, ev.i, Step(w, ev).items[ev.i], g);
      hide Total, Share, Step, Reading;
    }
  }

  lemma {:induction false} StepNeverNegative(w: World, ev: Event)
    requires Accurate(w)
    ensures NeverNegative(Step(w, ev))
  {
    if ev.TakeCount? && At(w, ev.i, Closing) && w.items[ev.i].disk {
      TotalUpdate(w.items, ev.i, w.items[ev.i], DiskFiles);
      assert Reading(w, DiskFiles) >= 1;
    }
    if ev.TakeSize? && At(w, ev.i, Uncounted) && w.items[ev.i].disk {
      TotalUpdate(w.items, ev.i, w.items[ev.i], DiskBytes);
      assert Reading(w, DiskBytes) >= w.items[ev.i].size;
    }
    hide Total;
  }

  /** Under every interleaving the counters read exactly what the stores have
      added and not yet taken off, and no counter is ever found negative, so the
      clamping stores are never reached. */
  lemma {:induction false} CountersAccurate(w: World, evs: seq<Event>)
    requires Accurate(w)
    ensures Accurate(Run(w, evs))
    decreases |evs|
  {
    if evs != [] {
      hide Step, NeverNegative, Reading, Total;
      forall g: Gauge ensures Reading(Step(w, evs[0]), g) == Total(Step(w, evs[0]).items, g) {
        StepTotals(w, evs[0], g);
      }
      StepNeverNegative(w, evs[0]);
      CountersAccurate(Step(w, evs[0]), evs[1..]);
    }
  }

  ghost predicate Settled(items: seq<Item>) {
    forall i :: 0 <= i < |items| ==> items[i].phase in {Fresh, Open, Gone}
  }

  lemma {:induction false} SettledTotal(items: seq<Item>, g: Gauge)
    requires Settled(items)
    ensures Total(items, g) == OpenTotal(items, g)
  {
    if items != [] {
      SettledTotal(items[..|items| - 1], g);
      assert items[|items| - 1].phase in {Fresh, Open, Gone};
    }
  }

  /** Whenever no creation or close is under way, the counters are the number
      and the total size of the open stores, however often each was closed. */
  lemma {:induction false} CountersMatchOpenStores(evs: seq<Event>, g: Gauge)
    requires Settled(Run(EMPTY, evs).items)
    ensures Reading(Run(EMPTY, evs), g) == OpenTotal(Run(EMPTY, evs).items, g)
  {
    assert Accurate(EMPTY);
    CountersAccurate(EMPTY, evs);
    SettledTotal(Run(EMPTY, evs).items, g);
  }

  // ---------------------------------------------------------------------
  // Progress
  // ---------------------------------------------------------------------

  /** The atomic steps a store has before it, when no counter is found
      negative. */
  function StepsLeft(phase: Phase): nat {
    match phase
    case Fresh => 5
    case Counted => 4
    case Open => 3
    case Closing => 2
    case Uncounted => 1
    case _ => 0
  }

  /** The step that is due for a store. */
  function Due(phase: Phase, i: nat): Event
    requires StepsLeft(phase) > 0
  {
    match phase
    case Fresh => AddCount(i)
    case Counted => AddSize(i)
    case Open => CloseCall(i)
    case Closing => TakeCount(i)
    case Uncounted => TakeSize(i)
  }

  /** A store is made fresh, and nothing else happens; a check makes one exactly
      when the usage and the announced size together are within the limit. */
  lemma {:induction false} MadeExact(w: World, ev: Event)
    requires ev.Create? || ev.Check?
    ensures ev.Create? ==> Step(w, ev) == w.(items := w.items + [Item(ev.size, ev.disk, Fresh)])
    ensures ev.Check? && w.diskBytes + ev.announced <= ev.limit ==>
              Passes(w, ev) && Step(w, ev) == w.(items := w.items + [Item(ev.written, true, Fresh)])
    ensures ev.Check? && w.diskBytes + ev.announced > ev.limit ==> !Passes(w, ev) && Step(w, ev) == w
  {
  }

  /** The step that is due takes the store one further and touches no other; any
      other step of the store changes nothing at all. */
  lemma {:induction false} StepAdvances(w: World, ev: Event)
    requires Accurate(w) && !ev.Create? && !ev.Check? && ev.i < |w.items|
    ensures var x := w.items[ev.i];
            var t := Step(w, ev);
            if StepsLeft(x.phase) > 0 && ev == Due(x.phase, ev.i)
            then t.items == w.items[ev.i := x.(phase := t.items[ev.i].phase)]
                 && StepsLeft(t.items[ev.i].phase) == StepsLeft(x.phase) - 1
            else t == w
  {
    StepNeverNegative(w, ev);
    assert w.items[ev.i].phase != ClampFiles && w.items[ev.i].phase != ClampBytes;
    assert ev.i < |Step(w, ev).items| ==> Step(w, ev).items[ev.i].phase != ClampFiles;
  }

  /** The steps all stores have before them. */
  function AllStepsLeft(items: seq<Item>): nat {
    if items == [] then 0 else AllStepsLeft(items[..|items| - 1]) + StepsLeft(items[|items| - 1].phase)
  }

  lemma {:induction false} LeftUpdate(items: seq<Item>, i: nat, x: Item)
    requires i < |items|
    ensures AllStepsLeft(items[i := x]) == AllStepsLeft(items) - StepsLeft(items[i].phase) + StepsLeft(x.phase)
    ensures StepsLeft(items[i].phase) <= AllStepsLeft(items)
  {
    hide StepsLeft;
    var n := |items| - 1;
    if i < n {
      assert items[i := x][..n] == items[..n][i := x];
      LeftUpdate(items[..n], i, x);
    } else {
      assert items[i := x][..n] == items[..n];
    }
  }

  lemma {:induction false} SomeoneLeft(items: seq<Item>)
    requires AllStepsLeft(items) > 0
    ensures exists i :: 0 <= i < |items| && StepsLeft(items[i].phase) > 0
  {
    hide StepsLeft;
    var n := |items| - 1;
    if StepsLeft(items[n].phase) == 0 {
      SomeoneLeft(items[..n]);
      var i :| 0 <= i < n && StepsLeft(items[..n][i].phase) > 0;
      assert items[i] == items[..n][i];
    }
  }

  lemma {:induction false} NoneCounted(items: seq<Item>, g: Gauge)
    requires AllStepsLeft(items) == 0
    requires forall i :: 0 <= i < |items| ==> items[i].phase != ClampFiles && items[i].phase != ClampBytes
    ensures Total(items, g) == 0
  {
    if items != [] { NoneCounted(items[..|items| - 1], g); }
  }

  ghost predicate NothingMade(evs: seq<Event>) { forall ev :: ev in evs ==> !ev.Create? && !ev.Check? }

  lemma {:induction false} ClosingRun(w: World) returns (evs: seq<Event>)
    requires Accurate(w)
    ensures NothingMade(evs) && |evs| == AllStepsLeft(w.items)
    ensures AllStepsLeft(Run(w, evs).items) == 0
    decreases AllStepsLeft(w.items)
  {
    if AllStepsLeft(w.items) == 0 {
      evs := [];
    } else {
      SomeoneLeft(w.items);
      var i :| 0 <= i < |w.items| && StepsLeft(w.items[i].phase) > 0;
      var ev := Due(w.items[i].phase, i);
      StepAdvances(w, ev);
      LeftUpdate(w.items, i, Step(w, ev).items[i]);
      CountersAccurate(w, [ev]);
      assert [ev][1..] == [] && Run(w, [ev]) == Step(w, ev);
      hide Step, StepsLeft, AllStepsLeft, Accurate;
      var rest := ClosingRun(Step(w, ev));
      evs := [ev] + rest;
      assert evs[1..] == rest;
    }
  }

  /** No step is ever missing: from every reachable state all stores can be made,
      closed and taken off in exactly the steps they have left, and every counter
      then reads 0. */
  lemma {:induction false} EveryStoreCanClose(before: seq<Event>)
    ensures var w := Run(EMPTY, before);
            exists evs :: NothingMade(evs) && |evs| == AllStepsLeft(w.items)
                && forall g: Gauge :: Reading(Run(w, evs), g) == 0
  {
    assert Accurate(EMPTY);
    CountersAccurate(EMPTY, before);
    var w := Run(EMPTY, before);
    var evs := ClosingRun(w);
    CountersAccurate(w, evs);
    forall g: Gauge ensures Reading(Run(w, evs), g) == 0 { NoneCounted(Run(w, evs).items, g); }
  }

  /** Closing again what is closing or closed changes nothing. */
  lemma {:induction false} CloseCountedOnce(w: World, i: nat, evs: seq<Event>)
    requires i < |w.items| && w.items[i].phase !in {Fresh, Counted, Open}
    ensures i < |Run(w, evs).items| && w.items[i].size == Run(w, evs).items[i].size
    ensures Run(w, evs).items[i].phase !in {Fresh, Counted, Open}
    ensures Step(Run(w, evs), CloseCall(i)) == Run(w, evs)
    decreases |evs|
  {
    if evs != [] {
      StepKeepsClosed(w, i, evs[0]);
      hide Step;
      CloseCountedOnce(Step(w, evs[0]), i, evs[1..]);
    }
  }

  lemma {:induction false} StepKeepsClosed(w: World, i: nat, ev: Event)
    requires i < |w.items| && w.items[i].phase !in {Fresh, Counted, Open}
    ensures i < |Step(w, ev).items| && Step(w, ev).items[i].size == w.items[i].size
    ensures Step(w, ev).items[i].phase !in {Fresh, Counted, Open}
  {
  }

  // ---------------------------------------------------------------------
  // The disk limit
  // ---------------------------------------------------------------------

  /** A disk store that was let through and whose size is not yet added. */
  function Pending(x: Item): nat { if x.disk && x.phase in {Fresh, Counted} then x.size else 0 }

  function InFlight(items: seq<Item>): nat {
    if items == [] then 0 else InFlight(items[..|items| - 1]) + Pending(items[|items| - 1])
  }

  lemma {:induction false} InFlightUpdate(items: seq<Item>, i: nat, x: Item)
    requires i < |items|
    ensures InFlight(items[i := x]) == InFlight(items) - Pending(items[i]) + Pending(x)
    ensures Pending(items[i]) <= InFlight(items)
  {
    hide Pending;
    var n := |items| - 1;
    if i < n {
      assert items[i := x][..n] == items[..n][i := x];
      InFlightUpdate(items[..n], i, x);
    } else {
      assert items[i := x][..n] == items[..n];
    }
  }

  /** The check answers yes. */
  predicate Passes(w: World, ev: Event) { ev.Check? && w.diskBytes + ev.announced <= ev.limit }

  /** Disk stores are made through the check, against one limit; each check that
      passes finds at most `others` bytes in flight, and what is written is at most
      `excess` more than was announced. */
  predicate Obeys(w: World, ev: Event, limit: int, others: nat, excess: nat) {
    && (ev.Create? ==> !ev.disk)
    && (ev.Check? ==> ev.limit == limit)
    && (Passes(w, ev) ==> InFlight(w.items) <= others && ev.written <= ev.announced + excess)
  }

  predicate Disciplined(w: World, evs: seq<Event>, limit: int, others: nat, excess: nat)
    decreases |evs|
  {
    evs == []
    || (Obeys(w, evs[0], limit, others, excess)
        && Disciplined(Step(w, evs[0]), evs[1..], limit, others, excess))
  }

  ghost predicate Bounded(w: World, bound: int) { w.diskBytes + InFlight(w.items) <= bound }

  /** What is on disk and in flight together grows at a passing check only. */
  lemma {:induction false} StepBounded(w: World, ev: Event, limit: int, others: nat, excess: nat)
    requires Accurate(w) && Bounded(w, limit + others + excess) && Obeys(w, ev, limit, others, excess)
    ensures Bounded(Step(w, ev), limit + others + excess)
  {
    var t := Step(w, ev);
    if ev.Create? || ev.Check? {
      MadeBounded(w, ev, limit, others, excess);
      hide *;
    } else if ev.i < |w.items| {
      StepMoves(w, ev, DiskBytes);
      InFlightUpdate(w.items, ev.i, t.items[ev.i]);
      PhaseBalance(w, ev);
      hide InFlight, Step, Pending, Share, Accurate;
    }
  }

  lemma {:induction false} MadeBounded(w: World, ev: Event, limit: int, others: nat, excess: nat)
    requires Bounded(w, limit + others + excess) && (ev.Create? || ev.Check?) && Obeys(w, ev, limit, others, excess)
    ensures Bounded(Step(w, ev), limit + others + excess)
  {
    if ev.Create? {
      InFlightAppend(w.items, Item(ev.size, false, Fresh));
    } else {
      InFlightAppend(w.items, Item(ev.written, true, Fresh));
    }
    hide InFlight;
  }

  lemma {:induction false} InFlightAppend(items: seq<Item>, x: Item)
    ensures InFlight(items + [x]) == InFlight(items) + Pending(x)
  {
    hide Pending;
    assert (items + [x])[..|items|] == items;
  }

  lemma {:induction false} PhaseBalance(w: World, ev: Event)
    requires !ev.Create? && !ev.Check? && ev.i < |w.items| && NeverNegative(w)
    ensures var x, y := w.items[ev.i], Step(w, ev).items[ev.i];
            Share(y, DiskBytes) + Pending(y) <= Share(x, DiskBytes) + Pending(x)
  {
    assert w.items[ev.i].phase != ClampFiles && w.items[ev.i].phase != ClampBytes;
  }

  /** The check and the addition are separate steps, and the check sees only the
      announced size: the disk holds at most the limit, what was in flight at a
      check, and what a store wrote beyond its announcement. */
  lemma {:induction false} LimitOvershootBounded(
    w: World, evs: seq<Event>, limit: int, others: nat, excess: nat)
    requires Accurate(w) && Bounded(w, limit + others + excess) && Disciplined(w, evs, limit, others, excess)
    ensures Bounded(Run(w, evs), limit + others + excess)
    ensures Run(w, evs).diskBytes <= limit + others + excess
    decreases |evs|
  {
    if evs != [] {
      StepBounded(w, evs[0], limit, others, excess);
      CountersAccurate(w, [evs[0]]);
      assert Run(w, [evs[0]]) == Step(w, evs[0]) by { assert [evs[0]][1..] == []; }
      hide Step, Bounded, Accurate, Obeys;
      LimitOvershootBounded(Step(w, evs[0]), evs[1..], limit, others, excess);
    }
  }

  /** Adding the stores from `i` on, one after the other. */
  function Additions(i: nat, n: nat): seq<Event>
    requires i <= n
    decreases n - i
  {
    if i == n then [] else [AddCount(i), AddSize(i)] + Additions(i + 1, n)
  }

  /** Checks of one byte each until `others` bytes are in flight, a check of the
      whole limit for a store that writes `excess` more, and then all the
      additions; `made` stores are there already. */
  function OvershootRun(others: nat, limit: nat, excess: nat, made: nat): seq<Event> {
    if others == 0 then [Check(limit, limit + excess, limit)] + Additions(0, made + 1)
    else [Check(1, 1, limit)] + OvershootRun(others - 1, limit, excess, made + 1)
  }

  /** Disk stores let through, the first `i` of them added. */
  ghost predicate AddedUpTo(items: seq<Item>, i: nat) {
    && i <= |items|
    && (forall k :: 0 <= k < i ==> items[k].disk && items[k].phase == Open)
    && (forall k :: i <= k < |items| ==> items[k].disk && items[k].phase == Fresh)
  }

  lemma {:induction false} NoneInFlight(items: seq<Item>)
    requires AddedUpTo(items, |items|)
    ensures InFlight(items) == 0
  {
    if items != [] {
      assert items[|items| - 1].phase == Open;
      NoneInFlight(items[..|items| - 1]);
    }
  }

  lemma {:induction false} OneStep(w: World, ev: Event, rest: seq<Event>, limit: int, others: nat, excess: nat)
    requires Obeys(w, ev, limit, others, excess) && Disciplined(Step(w, ev), rest, limit, others, excess)
    ensures Disciplined(w, [ev] + rest, limit, others, excess)
    ensures Run(w, [ev] + rest) == Run(Step(w, ev), rest)
  {
    hide Step, Obeys;
    assert ([ev] + rest)[1..] == rest;
  }

  /** One store's two additions. */
  lemma {:induction false} AddOne(w: World, i: nat)
    requires AddedUpTo(w.items, i) && i < |w.items|
    ensures var t := Step(Step(w, AddCount(i)), AddSize(i));
            && t.diskBytes == w.diskBytes + w.items[i].size && |t.items| == |w.items|
            && AddedUpTo(t.items, i + 1)
            && InFlight(t.items) == InFlight(w.items) - w.items[i].size
  {
    var t := Step(Step(w, AddCount(i)), AddSize(i));
    var x := w.items[i];
    assert t.items == w.items[i := x.(phase := Open)];
    InFlightUpdate(w.items, i, x.(phase := Open));
    hide InFlight;
  }

  lemma {:induction false} AddRest(w: World, i: nat, limit: int, others: nat, excess: nat)
    requires AddedUpTo(w.items, i)
    ensures var evs := Additions(i, |w.items|);
            && Disciplined(w, evs, limit, others, excess)
            && Run(w, evs).diskBytes == w.diskBytes + InFlight(w.items)
    decreases |w.items| - i
  {
    if i == |w.items| {
      NoneInFlight(w.items);
    } else {
      AddOne(w, i);
      var counted := Step(w, AddCount(i));
      var added := Step(counted, AddSize(i));
      hide Step, AddedUpTo, InFlight;
      AddRest(added, i + 1, limit, others, excess);
      var rest := Additions(i + 1, |w.items|);
      OneStep(counted, AddSize(i), rest, limit, others, excess);
      OneStep(w, AddCount(i), [AddSize(i)] + rest, limit, others, excess);
      assert [AddCount(i)] + ([AddSize(i)] + rest) == Additions(i, |w.items|);
    }
  }

  /** A check that passes lets one more store through. */
  lemma {:induction false} CheckLetsThrough(w: World, announced: nat, written: nat, limit: int)
    requires AddedUpTo(w.items, 0) && w.diskBytes == 0 && announced <= limit
    ensures var t := Step(w, Check(announced, written, limit));
            && AddedUpTo(t.items, 0) && t.diskBytes == 0 && |t.items| == |w.items| + 1
            && InFlight(t.items) == InFlight(w.items) + written
  {
    InFlightAppend(w.items, Item(written, true, Fresh));
    hide InFlight;
  }

  lemma {:induction false} LimitOvershootReached(w: World, more: nat, limit: nat, others: nat, excess: nat)
    requires limit > 0 && AddedUpTo(w.items, 0) && w.diskBytes == 0 && InFlight(w.items) + more == others
    ensures var evs := OvershootRun(more, limit, excess, |w.items|);
            && Disciplined(w, evs, limit, others, excess)
            && Run(w, evs).diskBytes == limit + others + excess
    decreases more
  {
    if more == 0 {
      var ev := Check(limit, limit + excess, limit);
      CheckLetsThrough(w, limit, limit + excess, limit);
      AddRest(Step(w, ev), 0, limit, others, excess);
      hide Step, InFlight, AddedUpTo, Disciplined, Run;
      OneStep(w, ev, Additions(0, |w.items| + 1), limit, others, excess);
    } else {
      var ev := Check(1, 1, limit);
      CheckLetsThrough(w, 1, 1, limit);
      hide Step, InFlight, AddedUpTo, Disciplined, Run;
      LimitOvershootReached(Step(w, ev), more - 1, limit, others, excess);
      OneStep(w, ev, OvershootRun(more - 1, limit, excess, |w.items| + 1), limit, others, excess);
    }
  }

  ghost predicate NeverOver(limit: int, others: nat, excess: nat, bound: int) {
    forall evs :: Disciplined(EMPTY, evs, limit, others, excess) ==> Run(EMPTY, evs).diskBytes <= bound
  }

  /** How far the disk usage can go, exactly: no run goes over a bound if and only
      if the bound covers the limit, what may be in flight at a check, and what may
      be written beyond the announcement. */
  lemma {:induction false} DiskUsageExact(limit: nat, others: nat, excess: nat, bound: int)
    requires limit > 0
    ensures NeverOver(limit, others, excess, bound) <==> limit + others + excess <= bound
  {
    assert Accurate(EMPTY) && Bounded(EMPTY, limit + others + excess);
    if limit + others + excess <= bound {
      forall evs | Disciplined(EMPTY, evs, limit, others, excess) ensures Run(EMPTY, evs).diskBytes <= bound {
        LimitOvershootBounded(EMPTY, evs, limit, others, excess);
      }
    }
    assert AddedUpTo(EMPTY.items, 0) && InFlight(EMPTY.items) == 0;
    LimitOvershootReached(EMPTY, others, limit, others, excess);
  }

  /** The limit itself is kept on every run exactly when no check passes beside a
      store in flight and no store writes more than it announced. */
  lemma {:induction false} DiskLimitExact(limit: nat, others: nat, excess: nat)
    requires limit > 0
    ensures NeverOver(limit, others, excess, limit) <==> others == 0 && excess == 0
  {
    hide NeverOver;
    DiskUsageExact(limit, others, excess, limit);
  }
}
