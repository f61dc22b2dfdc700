/** The dashboard's usage accounting: events are summed in a cache by user,
    model and hour, and the cache is flushed into a table now and then. */
module UsageData {
  import opened Wrappers
  import opened Decimal

  datatype Totals = Totals(count: int, quota: int, tokens: int)

  function Plus(a: Totals, b: Totals): Totals {
    Totals(a.count + b.count, a.quota + b.quota, a.tokens + b.tokens)
  }

  /** What usage is kept by. */
  datatype Tuple = Tuple(userId: int, username: string, model: string, hour: int)

  /** A cache entry, and a table row. */
  datatype Row = Row(who: Tuple, totals: Totals)

  datatype State = State(cache: map<string, Row>, table: seq<Row>)

  /** The cache's key, the four parts joined by dashes. */
  function KeyOf(t: Tuple): string {
    IntToString(t.userId) + "-" + t.username + "-" + t.model + "-" + IntToString(t.hour)
  }

  /** The remainder as the machine computes it: with the dividend's sign. */
  function Remainder(a: int, b: nat): int
    requires b > 0
  {
    if a >= 0 then a % b else -((-a) % b)
  }

  function HourOf(createdAt: int): int { createdAt - Remainder(createdAt, 3600) }

  /** Times are rounded to a whole hour: down from 1970 on, and towards 1970
      before. */
  lemma {:induction false} HourRounds(createdAt: int)
    ensures HourOf(createdAt) % 3600 == 0
    ensures createdAt >= 0 ==> HourOf(createdAt) <= createdAt < HourOf(createdAt) + 3600
    ensures createdAt < 0 ==> HourOf(createdAt) - 3600 < createdAt <= HourOf(createdAt) <= 0
  {
    var k := if createdAt >= 0 then createdAt / 3600 else -((-createdAt) / 3600);
    assert HourOf(createdAt) == 3600 * k;
  }

  datatype LogEvent = LogEvent(userId: int, username: string, model: string, quota: int, createdAt: int, tokens: int)

  function TupleOf(e: LogEvent): Tuple { Tuple(e.userId, e.username, e.model, HourOf(e.createdAt)) }

  function TotalsOf(e: LogEvent): Totals { Totals(1, e.quota, e.tokens) }

  /** LogQuotaData. */
  function Logged(cache: map<string, Row>, e: LogEvent): map<string, Row> {
    var key := KeyOf(TupleOf(e));
    if key in cache then cache[key := cache[key].(totals := Plus(cache[key].totals, TotalsOf(e)))]
    else cache[key := Row(TupleOf(e), TotalsOf(e))]
  }

  /** Adding to every row of a tuple, as the UPDATE does. */
  function Increased(table: seq<Row>, who: Tuple, t: Totals): (r: seq<Row>)
    ensures |r| == |table|
    ensures forall i :: 0 <= i < |r| ==>
              r[i] == if table[i].who == who then Row(who, Plus(table[i].totals, t)) else table[i]
  {
    if table == [] then []
    else [if table[0].who == who then Row(who, Plus(table[0].totals, t)) else table[0]] + Increased(table[1..], who, t)
  }

  predicate HasRow(table: seq<Row>, who: Tuple) { exists i :: 0 <= i < |table| && table[i].who == who }

  /** Flushing one cache entry: add to its row, or create it. */
  function FlushedOne(table: seq<Row>, entry: Row): seq<Row> {
    if HasRow(table, entry.who) then Increased(table, entry.who, entry.totals) else table + [entry]
  }

  /** Flushing the entries under the given keys, in that order. */
  function FlushedAll(table: seq<Row>, cache: map<string, Row>, order: seq<string>): seq<Row>
    requires forall k :: k in order ==> k in cache
  {
    if order == [] then table
    else
      var last := order[|order| - 1];
      assert last in order;
      FlushedOne(FlushedAll(table, cache, order[..|order| - 1]), cache[last])
  }

  /** An order the cache may be flushed in: every key once. */
  ghost predicate FlushOrder(order: seq<string>, cache: map<string, Row>) {
    && (forall i, j :: 0 <= i < j < |order| ==> order[i] != order[j])
    && (forall k :: k in order <==> k in cache)
  }

  datatype Event = Log(e: LogEvent) | Flush(order: seq<string>)

  ghost predicate Possible(s: State, ev: Event) { ev.Flush? ==> FlushOrder(ev.order, s.cache) }

  function Step(s: State, ev: Event): State
    requires Possible(s, ev)
  {
    match ev
    case Log(e) => s.(cache := Logged(s.cache, e))
    case Flush(order) => State(map[], FlushedAll(s.table, s.cache, order))
  }

  ghost predicate PossibleRun(s: State, evs: seq<Event>)
    decreases |evs|
  {
    evs == [] || (Possible(s, evs[0]) && PossibleRun(Step(s, evs[0]), evs[1..]))
  }

  function Run(s: State, evs: seq<Event>): State
    requires PossibleRun(s, evs)
    decreases |evs|
  {
    if evs == [] then s else Run(Step(s, evs[0]), evs[1..])
  }

  // ---------------------------------------------------------------------
  // Sums, overall or for one tuple
  // ---------------------------------------------------------------------

  datatype Measure = Count | Quota | Tokens

  /** What is summed: one of the three measures, of everything or one tuple. */
  datatype Selection = Selection(measure: Measure, only: Option<Tuple>)

  function Amount(t: Totals, m: Measure): int {
    match m
    case Count => t.count
    case Quota => t.quota
    case Tokens => t.tokens
  }

  function Share(who: Tuple, t: Totals, sel: Selection): int {
    if sel.only == None || sel.only == Some(who) then Amount(t, sel.measure) else 0
  }

  function TableSum(table: seq<Row>, sel: Selection): int {
    if table == [] then 0
    else TableSum(table[..|table| - 1], sel) + Share(table[|table| - 1].who, table[|table| - 1].totals, sel)
  }

  ghost function KeysSum(cache: map<string, Row>, keys: set<string>, sel: Selection): int
    requires keys <= cache.Keys
  {
    if keys == {} then 0
    else
      var k :| k in keys;
      Share(cache[k].who, cache[k].totals, sel) + KeysSum(cache, keys - {k}, sel)
  }

  ghost function CacheSum(cache: map<string, Row>, sel: Selection): int { KeysSum(cache, cache.Keys, sel) }

  /** What the table and the cache hold together. */
  ghost function Accounted(s: State, sel: Selection): int {
    TableSum(s.table, sel) + CacheSum(s.cache, sel)
  }

  /** The event is the tuple's own: its user, name, model and hour. */
  predicate Concerns(e: LogEvent, who: Tuple) {
    && who.userId == e.userId && who.username == e.username && who.model == e.model
    && who.hour == HourOf(e.createdAt)
  }

  /** What an event is worth: one call, its quota and its tokens, to its own
      tuple. */
  function EventShare(ev: Event, sel: Selection): int {
    if ev.Flush? || (sel.only.Some? && !Concerns(ev.e, sel.only.value)) then 0
    else match sel.measure
      case Count => 1
      case Quota => ev.e.quota
      case Tokens => ev.e.tokens
  }

  lemma {:induction false} EventCounted(e: LogEvent, sel: Selection)
    ensures EventShare(Log(e), sel) == Share(TupleOf(e), TotalsOf(e), sel)
  {
    hide HourOf;
  }

  /** What the events logged. */
  function LoggedSum(evs: seq<Event>, sel: Selection): int
    decreases |evs|
  {
    if evs == [] then 0 else EventShare(evs[0], sel) + LoggedSum(evs[1..], sel)
  }

  lemma {:induction false} SharePlus(who: Tuple, a: Totals, b: Totals, sel: Selection)
    ensures Share(who, Plus(a, b), sel) == Share(who, a, sel) + Share(who, b, sel)
  {
  }

  lemma {:induction false} KeysSumTakes(cache: map<string, Row>, keys: set<string>, k: string, sel: Selection)
    requires keys <= cache.Keys && k in keys
    ensures KeysSum(cache, keys, sel) == Share(cache[k].who, cache[k].totals, sel) + KeysSum(cache, keys - {k}, sel)
    decreases |keys|
  {
    hide Share;
    var first :| first in keys && KeysSum(cache, keys, sel)
                 == Share(cache[first].who, cache[first].totals, sel) + KeysSum(cache, keys - {first}, sel);
    if first != k {
      KeysSumTakes(cache, keys - {first}, k, sel);
      KeysSumTakes(cache, keys - {k}, first, sel);
      assert keys - {first} - {k} == keys - {k} - {first};
    }
  }

  lemma {:induction false} KeysSumSame(
    cache: map<string, Row>, other: map<string, Row>, keys: set<string>, sel: Selection)
    requires keys <= cache.Keys && keys <= other.Keys
    requires forall k :: k in keys ==> cache[k] == other[k]
    ensures KeysSum(cache, keys, sel) == KeysSum(other, keys, sel)
    decreases |keys|
  {
    hide Share;
    if keys != {} {
      var k :| k in keys;
      KeysSumTakes(cache, keys, k, sel);
      KeysSumTakes(other, keys, k, sel);
      KeysSumSame(cache, other, keys - {k}, sel);
    }
  }

  // ---------------------------------------------------------------------
  // Consistent states
  // ---------------------------------------------------------------------

  ghost predicate OneRowEach(table: seq<Row>) {
    forall i, j :: 0 <= i < j < |table| ==> table[i].who != table[j].who
  }

  ghost predicate KeyedRight(cache: map<string, Row>) { forall k :: k in cache ==> KeyOf(cache[k].who) == k }

  ghost predicate Consistent(s: State) { OneRowEach(s.table) && KeyedRight(s.cache) }

  /** One user name per id, and hours from 1970 on. */
  ghost predicate Named(t: Tuple, nameOf: int -> string) { t.username == nameOf(t.userId) && t.hour >= 0 }

  ghost function NamedTuples(nameOf: int -> string): iset<Tuple> { iset t: Tuple | Named(t, nameOf) }

  // ---------------------------------------------------------------------
  // One event
  // ---------------------------------------------------------------------

  lemma {:induction false} HasRowSnoc(table: seq<Row>, who: Tuple)
    requires table != [] && OneRowEach(table)
    ensures var init := table[..|table| - 1];
            var last := table[|table| - 1];
            && (HasRow(table, who) <==> HasRow(init, who) || last.who == who)
            && (last.who == who ==> !HasRow(init, who))
            && OneRowEach(init)
  {
    var init := table[..|table| - 1];
    if HasRow(table, who) && table[|table| - 1].who != who {
      var i :| 0 <= i < |table| && table[i].who == who;
      assert init[i].who == who;
    }
    if HasRow(init, who) {
      var i :| 0 <= i < |init| && init[i].who == who;
      assert table[i].who == who;
    }
  }

  lemma {:induction false} IncreasedSnoc(table: seq<Row>, who: Tuple, t: Totals)
    requires table != []
    ensures var n := |table| - 1;
            && Increased(table, who, t)[..n] == Increased(table[..n], who, t)
            && Increased(table, who, t)[n].who == table[n].who
            && Increased(table, who, t)[n].totals == if table[n].who == who then Plus(table[n].totals, t)
                else table[n].totals
  {
    hide Plus;
  }

  lemma {:induction false} IncreasedSum(table: seq<Row>, who: Tuple, t: Totals, sel: Selection)
    requires OneRowEach(table)
    ensures TableSum(Increased(table, who, t), sel) ==
              if HasRow(table, who) then TableSum(table, sel) + Share(who, t, sel) else TableSum(table, sel)
  {
    if table != [] {
      hide Share, Plus, HasRow, Increased, OneRowEach;
      SharePlus(who, table[|table| - 1].totals, t, sel);
      HasRowSnoc(table, who);
      IncreasedSnoc(table, who, t);
      IncreasedSum(table[..|table| - 1], who, t, sel);
    }
  }

  lemma {:induction false} SameTuples(table: seq<Row>, entry: Row)
    requires OneRowEach(table)
    ensures OneRowEach(Increased(table, entry.who, entry.totals))
    ensures !HasRow(table, entry.who) ==> OneRowEach(table + [entry])
  {
    hide Plus;
    forall i | 0 <= i < |table| ensures Increased(table, entry.who, entry.totals)[i].who == table[i].who {}
  }

  lemma {:induction false} FlushedOneSum(table: seq<Row>, entry: Row, sel: Selection)
    requires OneRowEach(table)
    ensures OneRowEach(FlushedOne(table, entry))
    ensures TableSum(FlushedOne(table, entry), sel) == TableSum(table, sel) + Share(entry.who, entry.totals, sel)
  {
    IncreasedSum(table, entry.who, entry.totals, sel);
    SameTuples(table, entry);
    assert (table + [entry])[..|table|] == table;
  }

  lemma {:induction false} FlushedAllSum(
    table: seq<Row>, cache: map<string, Row>, order: seq<string>, keys: set<string>, sel: Selection)
    requires OneRowEach(table) && keys == (set k | k in order) && keys <= cache.Keys
    requires forall i, j :: 0 <= i < j < |order| ==> order[i] != order[j]
    ensures OneRowEach(FlushedAll(table, cache, order))
    ensures TableSum(FlushedAll(table, cache, order), sel) == TableSum(table, sel) + KeysSum(cache, keys, sel)
  {
    if order != [] {
      var init := order[..|order| - 1];
      var last := order[|order| - 1];
      assert order == init + [last];
      assert last in order && last !in init;
      assert keys - {last} == set k | k in init;
      FlushedAllSum(table, cache, init, keys - {last}, sel);
      FlushedOneSum(FlushedAll(table, cache, init), cache[last], sel);
      KeysSumTakes(cache, keys, last, sel);
    }
  }

  lemma {:induction false} ShareOfAll(cache: map<string, Row>, e: LogEvent, sel: Selection)
    requires var key := KeyOf(TupleOf(e)); sel.only.Some? && key in cache ==> cache[key].who == TupleOf(e)
    ensures var key := KeyOf(TupleOf(e));
            key in cache ==> Share(cache[key].who, TotalsOf(e), sel) == Share(TupleOf(e), TotalsOf(e), sel)
  {
    hide KeyOf, HourOf, Amount;
  }

  lemma {:induction false} LoggedCacheSum(cache: map<string, Row>, e: LogEvent, sel: Selection)
    requires var key := KeyOf(TupleOf(e)); sel.only.Some? && key in cache ==> cache[key].who == TupleOf(e)
    ensures CacheSum(Logged(cache, e), sel) == CacheSum(cache, sel) + Share(TupleOf(e), TotalsOf(e), sel)
  {
    hide KeyOf, HourOf, Share, Plus;
    var key := KeyOf(TupleOf(e));
    var after := Logged(cache, e);
    if key in cache { SharePlus(cache[key].who, cache[key].totals, TotalsOf(e), sel); }
    ShareOfAll(cache, e, sel);
    KeysSumTakes(after, after.Keys, key, sel);
    KeysSumSame(cache, after, cache.Keys - {key}, sel);
    assert after.Keys - {key} == cache.Keys - {key};
    if key in cache {
      KeysSumTakes(cache, cache.Keys, key, sel);
    } else {
      assert cache.Keys - {key} == cache.Keys;
    }
  }

  lemma {:induction false} StepAccounts(s: State, ev: Event, sel: Selection)
    requires Consistent(s) && Possible(s, ev)
    requires ev.Log? && sel.only.Some? && KeyOf(TupleOf(ev.e)) in s.cache ==>
               s.cache[KeyOf(TupleOf(ev.e))].who == TupleOf(ev.e)
    ensures Consistent(Step(s, ev))
    ensures Accounted(Step(s, ev), sel) == Accounted(s, sel) + EventShare(ev, sel)
  {
    hide KeyOf, TableSum, Share, Concerns;
    match ev {
      case Log(e) =>
        EventCounted(e, sel);
        LoggedCacheSum(s.cache, e, sel);
      case Flush(order) => FlushedAllSum(s.table, s.cache, order, s.cache.Keys, sel);
    }
  }

  /** A flush leaves nothing in the cache and all of it, tuple by tuple, in the
      table. */
  lemma {:induction false} FlushMovesAll(s: State, order: seq<string>, sel: Selection)
    requires Consistent(s) && Possible(s, Flush(order))
    ensures Step(s, Flush(order)).cache == map[]
    ensures TableSum(Step(s, Flush(order)).table, sel) == TableSum(s.table, sel) + CacheSum(s.cache, sel)
  {
    FlushedAllSum(s.table, s.cache, order, s.cache.Keys, sel);
  }

  lemma {:induction false} AllMoved(s: State, order: seq<string>)
    requires FlushOrder(order, s.cache)
    ensures Consistent(s) ==>
              forall sel :: TableSum(FlushedAll(s.table, s.cache, order), sel) ==
                            TableSum(s.table, sel) + CacheSum(s.cache, sel)
  {
    if Consistent(s) {
      forall sel
        ensures TableSum(FlushedAll(s.table, s.cache, order), sel) == TableSum(s.table, sel) + CacheSum(s.cache, sel)
      {
        FlushMovesAll(s, order, sel);
      }
    }
  }

  // ---------------------------------------------------------------------
  // Conservation over runs
  // ---------------------------------------------------------------------

  /** Whatever is logged and flushed, in any order, the table and the cache
      together hold what was there before plus what was logged, and the table
      keeps at most one row per tuple. */
  lemma {:induction false} UsageConserved(s: State, evs: seq<Event>, m: Measure)
    requires Consistent(s) && PossibleRun(s, evs)
    ensures Consistent(Run(s, evs))
    ensures var all := Selection(m, None);
            Accounted(Run(s, evs), all) == Accounted(s, all) + LoggedSum(evs, all)
    decreases |evs|
  {
    hide Consistent, Step, Accounted, KeyOf, EventShare, Possible;
    if evs != [] {
      StepAccounts(s, evs[0], Selection(m, None));
      UsageConserved(Step(s, evs[0]), evs[1..], m);
    }
  }

  // ---------------------------------------------------------------------
  // Attribution: when every tuple gets what was logged for it
  // ---------------------------------------------------------------------

  /** The cache entry the event meets, if any, is its own tuple's. */
  ghost predicate MeetsOwnEntry(cache: map<string, Row>, e: LogEvent) {
    var key := KeyOf(TupleOf(e));
    key in cache ==> cache[key].who == TupleOf(e)
  }

  ghost predicate StepAttributed(s: State, e: LogEvent, sel: Selection) {
    Accounted(Step(s, Log(e)), sel) == Accounted(s, sel) + EventShare(Log(e), sel)
  }

  /** Logging one event is attributed right, for every measure and every tuple,
      exactly when it meets no entry of another tuple. */
  lemma {:induction false} StepAttributedExact(s: State, e: LogEvent)
    requires Consistent(s)
    ensures (forall sel :: StepAttributed(s, e, sel)) <==> MeetsOwnEntry(s.cache, e)
  {
    if MeetsOwnEntry(s.cache, e) {
      forall sel ensures StepAttributed(s, e, sel) { StepAccounts(s, Log(e), sel); }
    } else {
      WrongEntryMiscounts(s, e);
      assert !StepAttributed(s, e, Selection(Count, Some(TupleOf(e))));
    }
  }

  lemma {:induction false} WrongEntryMiscounts(s: State, e: LogEvent)
    requires !MeetsOwnEntry(s.cache, e)
    ensures !StepAttributed(s, e, Selection(Count, Some(TupleOf(e))))
  {
    var sel := Selection(Count, Some(TupleOf(e)));
    hide KeyOf, HourOf;
    var key := KeyOf(TupleOf(e));
    var after := Logged(s.cache, e);
    assert after.Keys == s.cache.Keys;
    KeysSumTakes(after, after.Keys, key, sel);
    KeysSumTakes(s.cache, s.cache.Keys, key, sel);
    KeysSumSame(s.cache, after, s.cache.Keys - {key}, sel);
  }

  /** Every tuple of the cache, or of the events, is among the given ones. */
  ghost predicate CacheOver(cache: map<string, Row>, ts: iset<Tuple>) {
    forall k :: k in cache ==> cache[k].who in ts && Loggable(cache[k].who)
  }

  ghost predicate RunOver(evs: seq<Event>, ts: iset<Tuple>) {
    forall ev :: ev in evs && ev.Log? ==> TupleOf(ev.e) in ts
  }

  /** Tuples an event can have: those of a whole hour. */
  predicate Loggable(t: Tuple) { HourOf(t.hour) == t.hour }

  ghost predicate Separated(ts: iset<Tuple>) {
    forall a, b :: a in ts && b in ts && Loggable(a) && Loggable(b) && KeyOf(a) == KeyOf(b) ==> a == b
  }

  ghost predicate RunAttributed(s: State, evs: seq<Event>, sel: Selection) {
    PossibleRun(s, evs) ==> Accounted(Run(s, evs), sel) == Accounted(s, sel) + LoggedSum(evs, sel)
  }

  lemma {:induction false} EventLoggable(e: LogEvent)
    ensures Loggable(TupleOf(e))
  {
    HourRounds(e.createdAt);
    HourFixed(HourOf(e.createdAt));
  }

  lemma {:induction false} HourFixed(h: int)
    requires h % 3600 == 0
    ensures HourOf(h) == h
  {
    if h < 0 { assert -h == 3600 * -(h / 3600); }
  }

  /** One event over separated tuples meets no foreign entry and leaves none. */
  lemma {:induction false} StepOver(s: State, ev: Event, ts: iset<Tuple>)
    requires Consistent(s) && Possible(s, ev) && CacheOver(s.cache, ts) && Separated(ts)
    requires ev.Log? ==> TupleOf(ev.e) in ts
    ensures CacheOver(Step(s, ev).cache, ts)
    ensures ev.Log? ==> MeetsOwnEntry(s.cache, ev.e)
  {
    hide KeyOf, HourOf, Loggable;
    if ev.Log? {
      EventLoggable(ev.e);
      var key := KeyOf(TupleOf(ev.e));
      if key in s.cache { assert KeyOf(s.cache[key].who) == key; }
    }
  }

  /** Over separated tuples every run is attributed right. */
  lemma {:induction false} SeparatedRunAttributed(s: State, evs: seq<Event>, ts: iset<Tuple>, sel: Selection)
    requires Consistent(s) && CacheOver(s.cache, ts) && RunOver(evs, ts) && Separated(ts)
    ensures RunAttributed(s, evs, sel)
    decreases |evs|
  {
    hide Consistent, Step, Accounted, EventShare, Possible, CacheOver, Separated, MeetsOwnEntry;
    if evs != [] && PossibleRun(s, evs) {
      var ev := evs[0];
      assert ev in evs && forall f :: f in evs[1..] ==> f in evs;
      StepOver(s, ev, ts);
      MeetingOwnAccounts(s, ev, sel);
      SeparatedRunAttributed(Step(s, ev), evs[1..], ts, sel);
    }
  }

  lemma {:induction false} MeetingOwnAccounts(s: State, ev: Event, sel: Selection)
    requires Consistent(s) && Possible(s, ev) && (ev.Log? ==> MeetsOwnEntry(s.cache, ev.e))
    ensures Consistent(Step(s, ev)) && Accounted(Step(s, ev), sel) == Accounted(s, sel) + EventShare(ev, sel)
  {
    hide KeyOf, Consistent, Step, Accounted, EventShare;
    StepAccounts(s, ev, sel);
  }

  const EMPTY := State(map[], [])

  /** An event of a given tuple. */
  function EventOf(t: Tuple): LogEvent { LogEvent(t.userId, t.username, t.model, 0, t.hour, 0) }

  /** Two tuples with one key: logging the one and then the other goes wrong. */
  lemma {:induction false} SharedKeyMiscounts(a: Tuple, b: Tuple)
    requires Loggable(a) && Loggable(b) && KeyOf(a) == KeyOf(b) && a != b
    ensures !RunAttributed(EMPTY, [Log(EventOf(a)), Log(EventOf(b))], Selection(Count, Some(b)))
  {
    hide KeyOf, HourOf;
    var evs := [Log(EventOf(a)), Log(EventOf(b))];
    var sel := Selection(Count, Some(b));
    var first := Step(EMPTY, evs[0]);
    assert evs[1..] == [Log(EventOf(b))] && evs[1..][1..] == [];
    assert TupleOf(EventOf(a)) == a && TupleOf(EventOf(b)) == b;
    assert first.cache == map[KeyOf(a) := Row(a, Totals(1, 0, 0))];
    assert !MeetsOwnEntry(first.cache, EventOf(b));
    MeetingOwnAccounts(EMPTY, evs[0], sel);
    WrongEntryMiscounts(first, EventOf(b));
    hide Accounted;
    assert LoggedSum(evs, sel) == EventShare(evs[0], sel) + EventShare(evs[1], sel) by { TwoLogged(evs, sel); }
    assert Run(EMPTY, evs) == Step(first, evs[1]) by { TwoSteps(EMPTY, evs); }
  }

  lemma {:induction false} TwoLogged(evs: seq<Event>, sel: Selection)
    requires |evs| == 2
    ensures LoggedSum(evs, sel) == EventShare(evs[0], sel) + EventShare(evs[1], sel)
  {
    hide EventShare;
    assert evs[1..][1..] == [];
    assert LoggedSum(evs[1..], sel) == EventShare(evs[1], sel);
  }

  lemma {:induction false} TwoSteps(s: State, evs: seq<Event>)
    requires |evs| == 2 && evs[0].Log? && evs[1].Log?
    ensures PossibleRun(s, evs) && Run(s, evs) == Step(Step(s, evs[0]), evs[1])
  {
    hide Step;
    assert evs[1..][1..] == [];
    assert PossibleRun(Step(s, evs[0]), evs[1..]);
    assert Run(Step(s, evs[0]), evs[1..]) == Step(Step(s, evs[0]), evs[1]);
  }

  /** From an empty cache and table, every run of events over a set of tuples is
      attributed right, tuple by tuple and whatever is flushed when, exactly when
      the cache key tells those tuples apart. */
  lemma {:induction false} UsageAttributedExact(ts: iset<Tuple>)
    ensures (forall evs, sel :: RunOver(evs, ts) ==> RunAttributed(EMPTY, evs, sel)) <==> Separated(ts)
  {
    hide RunAttributed, KeyOf, HourOf;
    if Separated(ts) {
      forall evs, sel | RunOver(evs, ts) ensures RunAttributed(EMPTY, evs, sel) {
        SeparatedRunAttributed(EMPTY, evs, ts, sel);
      }
    } else {
      var a, b :| a in ts && b in ts && Loggable(a) && Loggable(b) && KeyOf(a) == KeyOf(b) && a != b;
      SharedKeyMiscounts(a, b);
      var evs := [Log(EventOf(a)), Log(EventOf(b))];
      assert TupleOf(EventOf(a)) == a && TupleOf(EventOf(b)) == b;
      assert RunOver(evs, ts);
    }
  }

  /** With one user name per user id, and no hour before 1970, every user, model
      and hour gets what was logged for it. */
  lemma {:induction false} UsageAttributed(s: State, evs: seq<Event>, m: Measure, who: Tuple, nameOf: int -> string)
    requires Consistent(s) && CacheOver(s.cache, NamedTuples(nameOf)) && RunOver(evs, NamedTuples(nameOf))
    ensures RunAttributed(s, evs, Selection(m, Some(who)))
  {
    hide Consistent, CacheOver, RunOver, RunAttributed, KeyOf;
    forall a, b | a in NamedTuples(nameOf) && b in NamedTuples(nameOf) && KeyOf(a) == KeyOf(b) ensures a == b {
      KeysSeparate(a, b, nameOf);
    }
    SeparatedRunAttributed(s, evs, NamedTuples(nameOf), Selection(m, Some(who)));
  }

  // ---------------------------------------------------------------------
  // When keys tell tuples apart
  // ---------------------------------------------------------------------

  lemma {:induction false} DashPositions(p: string, x: string, q: string, y: string)
    requires AllDigits(p) && AllDigits(q) && p + "-" + x == q + "-" + y
    ensures |p| == |q|
  {
    var s := p + "-" + x;
    var t := q + "-" + y;
    assert s[|p|] == '-' && t[|q|] == '-';
    assert forall i :: 0 <= i < |p| ==> s[i] == p[i] && p[i] in p;
    assert forall i :: 0 <= i < |q| ==> t[i] == q[i] && q[i] in q;
  }

  lemma {:induction false} SplitAt(p: string, x: string, q: string, y: string)
    requires |p| == |q| && p + "-" + x == q + "-" + y
    ensures p == q && x == y
  {
    var s := p + "-" + x;
    var t := q + "-" + y;
    assert p == s[..|p|] && q == t[..|q|];
    assert x == s[|p| + 1..] && y == t[|q| + 1..];
  }

  lemma {:induction false} DigitsPrefix(m: nat, x: string, n: nat, y: string)
    requires NatToString(m) + "-" + x == NatToString(n) + "-" + y
    ensures m == n && x == y
  {
    hide NatToString;
    DashPositions(NatToString(m), x, NatToString(n), y);
    SplitAt(NatToString(m), x, NatToString(n), y);
    NatToStringInjective(m, n);
  }

  lemma {:induction false} SignShown(i: int)
    ensures i < 0 ==> IntToString(i) == "-" + NatToString(-i)
    ensures i >= 0 ==> IntToString(i) == NatToString(i) && NatToString(i)[0] != '-'
  {
    if i >= 0 {
      var c := NatToString(i)[0];
      assert c in NatToString(i);
    }
  }

  lemma {:induction false} IdPrefix(i: int, x: string, j: int, y: string)
    requires IntToString(i) + "-" + x == IntToString(j) + "-" + y
    ensures i == j && x == y
  {
    hide NatToString, IntToString;
    SignShown(i);
    SignShown(j);
    var s := IntToString(i) + "-" + x;
    var t := IntToString(j) + "-" + y;
    assert s[0] == IntToString(i)[0] && t[0] == IntToString(j)[0];
    if i < 0 {
      assert s[1..] == NatToString(-i) + "-" + x && t[1..] == NatToString(-j) + "-" + y;
      DigitsPrefix(-i, x, -j, y);
    } else {
      DigitsPrefix(i, x, j, y);
    }
  }

  lemma {:induction false} HourSuffix(x: string, h: nat, y: string, k: nat)
    requires x + "-" + NatToString(h) == y + "-" + NatToString(k)
    ensures x == y && h == k
  {
    hide NatToString;
    var p, q := NatToString(h), NatToString(k);
    var s := x + "-" + p;
    var t := y + "-" + q;
    assert s[|x|] == '-' && t[|y|] == '-';
    assert forall i :: 0 <= i < |p| ==> p[i] in p;
    assert forall i :: 0 <= i < |q| ==> q[i] in q;
    assert forall i :: |x| < i < |s| ==> s[i] == p[i - |x| - 1] && s[i] != '-';
    assert forall i :: |y| < i < |t| ==> t[i] == q[i - |y| - 1] && t[i] != '-';
    SplitAt(x, p, y, q);
    NatToStringInjective(h, k);
  }

  lemma {:induction false} KeyParts(t: Tuple)
    ensures KeyOf(t) ==
              IntToString(t.userId) + "-" + (t.username + "-" + (t.model + "-" + IntToString(t.hour)))
  {
    hide NatToString, IntToString;
    var id, hour := IntToString(t.userId), IntToString(t.hour);
    assert id + "-" + t.username + "-" + t.model + "-" + hour ==
           id + "-" + (t.username + "-" + (t.model + "-" + hour));
  }

  /** With one name per id and no negative hour, the cache key determines the
      tuple. */
  lemma {:induction false} KeysSeparate(a: Tuple, b: Tuple, nameOf: int -> string)
    requires Named(a, nameOf) && Named(b, nameOf) && KeyOf(a) == KeyOf(b)
    ensures a == b
  {
    KeyParts(a);
    KeyParts(b);
    hide NatToString, KeyOf;
    var tailA := a.model + "-" + IntToString(a.hour);
    var tailB := b.model + "-" + IntToString(b.hour);
    IdPrefix(a.userId, a.username + "-" + tailA, b.userId, b.username + "-" + tailB);
    SplitAt(a.username, tailA, b.username, tailB);
    HourSuffix(a.model, a.hour, b.model, b.hour);
  }

  /** Without that, keys collide: the second event is charged to the first
      one's tuple. */
  lemma {:induction false} KeysCollide(hour: int, quota: int)
    ensures var first := LogEvent(1, "a-b", "c", 5, hour, 0);
            var second := LogEvent(1, "a", "b-c", quota, hour, 0);
            && TupleOf(first) != TupleOf(second)
            && KeyOf(TupleOf(first)) == KeyOf(TupleOf(second))
            && Logged(Logged(map[], first), second) ==
                 map[KeyOf(TupleOf(first)) := Row(TupleOf(first), Totals(2, 5 + quota, 0))]
  {
    hide HourOf, IntToString;
    var h := HourOf(hour);
    var p := IntToString(1);
    assert p + "-" + "a-b" + "-" + "c" + "-" + IntToString(h) == p + "-" + "a" + "-" + "b-c" + "-" + IntToString(h);
  }

  // ---------------------------------------------------------------------
  // In place
  // ---------------------------------------------------------------------

  class QuotaData {
    var cache: map<string, Row>
    var table: seq<Row>

    ghost function View(): State
      reads this
    {
      State(cache, table)
    }

    constructor (s: State)
      ensures View() == s
    {
      cache, table := s.cache, s.table;
    }

    /** LogQuotaData: the entry under the event's key, a new one of its own tuple
        when there is none, grows by one call, its quota and its tokens; nothing
        else changes. */
    method Record(e: LogEvent)
      modifies this
      ensures View() == Step(old(View()), Log(e))
      ensures var who := Tuple(e.userId, e.username, e.model, HourOf(e.createdAt));
              var was := if KeyOf(who) in old(cache) then old(cache)[KeyOf(who)] else Row(who, Totals(0, 0, 0));
              cache == old(cache)[KeyOf(who) := Row(was.who,
                  Totals(was.totals.count + 1, was.totals.quota + e.quota, was.totals.tokens + e.tokens))]
      ensures table == old(table)
    {
      hide KeyOf, HourOf;
      var who := TupleOf(e);
      var key := KeyOf(who);
      if key in cache {
        var entry := cache[key];
        cache := cache[key := entry.(totals := Plus(entry.totals, Totals(1, e.quota, e.tokens)))];
      } else {
        cache := cache[key := Row(who, Totals(1, e.quota, e.tokens))];
      }
    }

    /** SaveQuotaDataCache: the entries in whatever order the map yields. */
    method Save() returns (ghost order: seq<string>, size: nat)
      modifies this
      ensures FlushOrder(order, old(cache)) && View() == Step(old(View()), Flush(order))
      ensures size == |old(cache)| && cache == map[]
      ensures old(Consistent(View())) ==>
                forall sel :: TableSum(table, sel) == old(TableSum(table, sel)) + old(CacheSum(cache, sel))
    {
      hide TableSum, CacheSum, Consistent, Increased;
      ghost var before := View();
      size := |cache|;
      order := [];
      var remaining := cache.Keys;
      while remaining != {}
        invariant cache == old(cache) && remaining <= cache.Keys
        invariant forall i, j :: 0 <= i < j < |order| ==> order[i] != order[j]
        invariant forall k :: k in order <==> k in cache && k !in remaining
        invariant table == FlushedAll(old(table), cache, order)
        decreases |remaining|
      {
        var key := AnyOf(remaining);
        var entry := cache[key];
        if HasRow(table, entry.who) {
          table := Increased(table, entry.who, entry.totals);
        } else {
          table := table + [entry];
        }
        assert (order + [key])[..|order|] == order;
        order := order + [key];
        remaining := remaining - {key};
      }
      cache := map[];
      AllMoved(before, order);
    }
  }
}
